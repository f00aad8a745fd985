/**
 What the parser accepts: exactly the texts of layouts, and nothing else. Together with the
 theorem that every layout is read as what it denotes this pins every refusal.
 */
module JsonAcceptance {
  import opened Options
  import opened CodeUnits
  import opened Sequences
  import opened JsonValue
  import opened JsonParser
  import opened JsonStrings
  import opened JsonLayout

  // ---------- blanks and tokens ----------

  lemma {:induction false} BlankPrefix(u: Text) returns (pad: Text)
    ensures Blank(pad) && u == pad + SkipBlank(u)
    ensures SkipBlank(SkipBlank(u)) == SkipBlank(u)
  {
    if u != [] && IsBlank(u[0]) {
      var more := BlankPrefix(u[1..]);
      pad := [u[0]] + more;
      Assoc([u[0]], more, SkipBlank(u));
      assert u == [u[0]] + u[1..];
    } else {
      pad := [];
      assert [] + u == u;
    }
  }

  lemma BlanksJoin(a: Text, b: Text)
    requires Blank(a) && Blank(b)
    ensures Blank(a + b)
  {
  }

  lemma {:induction false} TrimRightSplits(s: Text) returns (ws: Text)
    ensures s == TrimRight(s) + ws && forall i :: 0 <= i < |ws| ==> ws[i] <= SPACE
    ensures TrimRight(s) != [] ==> TrimRight(s)[|TrimRight(s)| - 1] > SPACE
  {
    if s != [] && s[|s| - 1] <= SPACE {
      var more := TrimRightSplits(s[..|s| - 1]);
      ws := more + [s[|s| - 1]];
      assert s == s[..|s| - 1] + [s[|s| - 1]];
      Assoc(TrimRight(s), more, [s[|s| - 1]]);
    } else {
      ws := [];
      assert s + [] == s;
    }
  }

  lemma {:induction false} BareIsBare(v: Text)
    ensures forall i :: 0 <= i < |Bare(v)| ==> IsBare(Bare(v)[i])
  {
    if v != [] && IsBare(v[0]) {
      BareIsBare(v[1..]);
    }
  }

  /** An unquoted token, and the spaces that are trimmed off. */
  lemma BareIsToken(v: Text) returns (ws: Text)
    requires v != [] && !IsBlank(v[0]) && IsBare(v[0]) && v[0] != APOSTROPHE
    ensures IsToken(Trim(Bare(v))) && Blank(ws) && Bare(v) == Trim(Bare(v)) + ws
  {
    var s := Bare(v);
    BareIsBare(v);
    assert s[0] == v[0] && TrimLeft(s) == s;
    ws := TrimRightSplits(s);
    var t := TrimRight(s);
    assert t + ws == s && (t == [] ==> ws == s);
    assert forall i :: 0 <= i < |t| ==> t[i] == s[i];
    assert forall i :: 0 <= i < |ws| ==> ws[i] == s[|t| + i];
  }

  // ---------- literals ----------

  lemma EscapeIsGlyph(lib: Library, q: CodeUnit, u: Text) returns (g: Glyph)
    requires Escape(lib, u).Ok?
    ensures !g.Raw? && Readable(lib, q, g)
    ensures Escape(lib, u) == Ok(Meaning(lib, q, g), Escape(lib, u).rest)
    ensures u == Render(g)[1..] + Escape(lib, u).rest
  {
    if Head(u) == LETTER_U {
      var digits := u[1..][..4];
      g := Hex(digits);
      assert u == [u[0]] + digits + u[1..][4..];
      if AreHexDigits(digits) {
        DigitsOfFour(lib, digits);
      }
    } else {
      g := Short(Head(u));
      assert u == [u[0]] + u[1..];
    }
  }

  lemma {:induction false} StringIsLiteral(lib: Library, u: Text, q: CodeUnit) returns (gs: seq<Glyph>)
    requires NextString(lib, u, q).Ok?
    ensures forall i :: 0 <= i < |gs| ==> Readable(lib, q, gs[i])
    ensures var r := NextString(lib, u, q); r.value == MeaningAll(lib, q, gs) && u == RenderAll(gs) + [q] + r.rest
    decreases |u|
  {
    var rest := NextString(lib, u, q).rest;
    assert u == [u[0]] + u[1..];
    if u[0] != BACKSLASH && u[0] == q {
      gs := [];
      assert [] + [q] + rest == [q] + rest;
    } else {
      var g, after := Raw(u[0]), u[1..];
      if u[0] == BACKSLASH {
        g := EscapeIsGlyph(lib, q, u[1..]);
        after := Escape(lib, u[1..]).rest;
        assert Render(g) == [BACKSLASH] + Render(g)[1..];
      }
      var more := StringIsLiteral(lib, after, q);
      gs := [g] + more;
      assert gs[1..] == more;
      assert u == Render(g) + after;
      assert RenderAll(gs) == Render(g) + RenderAll(more);
      Assoc(Render(g), RenderAll(more), [q]);
      Assoc(Render(g), RenderAll(more) + [q], rest);
    }
  }

  // ---------- values ----------

  /** The text u is blanks, the layout, and blanks behind it that went with a token, and then rest. */
  ghost predicate IsText(lib: Library, u: Text, pad: Text, l: Layout, ws: Text, v: Value, rest: Text) {
    && Blank(pad) && Blank(ws) && (!l.Token? ==> ws == [])
    && WellFormed(lib, l) && KeysDiffer(lib, l) && Denotes(lib, l) == v
    && u == pad + (Print(l) + (ws + rest))
  }

  lemma {:induction false} NextValueIsLayout(lib: Library, u: Text) returns (pad: Text, l: Layout, ws: Text)
    requires NextValue(lib, u).Ok?
    ensures var r := NextValue(lib, u); IsText(lib, u, pad, l, ws, r.value, r.rest)
    decreases |u|, 1
  {
    var r := NextValue(lib, u);
    var v := SkipBlank(u);
    pad := BlankPrefix(u);
    ws := [];
    if Head(v) == QUOTE || Head(v) == APOSTROPHE {
      var gs := StringIsLiteral(lib, v[1..], v[0]);
      l := Literal(v[0], gs);
      LiteralText(v, v[0], RenderAll(gs), r.rest);
    } else if Head(v) == OPEN_BRACE {
      var p;
      p, l := ObjectIsLayout(lib, v);
      NoPad(v, p, Print(l) + r.rest);
    } else if Head(v) == OPEN_BRACKET {
      var p;
      p, l := ArrayIsLayout(lib, v);
      NoPad(v, p, Print(l) + r.rest);
    } else {
      ws := BareIsToken(v);
      l := Token(Trim(Bare(v)));
      TokenText(v, l.token, ws);
    }
    assert [] + r.rest == r.rest;
  }

  lemma LiteralText(v: Text, q: CodeUnit, body: Text, rest: Text)
    requires v != [] && v[0] == q && v[1..] == body + [q] + rest
    ensures v == [q] + body + [q] + rest
  {
    assert v == [q] + v[1..];
    assert [q] + (body + [q] + rest) == [q] + body + [q] + rest;
  }

  lemma TokenText(v: Text, token: Text, ws: Text)
    requires Bare(v) == token + ws
    ensures v == token + (ws + v[|Bare(v)|..])
  {
    assert v == Bare(v) + v[|Bare(v)|..];
    Assoc(token, ws, v[|Bare(v)|..]);
  }

  /** A text that starts with no blank has nothing in front. */
  lemma NoPad(v: Text, pad: Text, t: Text)
    requires Blank(pad) && v == pad + t && v != [] && !IsBlank(v[0])
    ensures v == t
  {
    assert forall i :: 0 <= i < |pad| ==> v[i] == pad[i];
    assert [] + t == t;
  }

  /** The converse of `ObjectTextReads`. */
  lemma {:induction false} ObjectIsLayout(lib: Library, u: Text) returns (pad: Text, l: Layout)
    requires ParseObject(lib, u).Ok?
    ensures var r := ParseObject(lib, u);
            && Blank(pad) && l.ObjectOf? && WellFormed(lib, l) && KeysDiffer(lib, l)
            && u == pad + (Print(l) + r.rest) && r.value == Denotes(lib, l)
    decreases |u|, 0
  {
    var r := ParseObject(lib, u);
    var v := SkipBlank(u);
    pad := BlankPrefix(u);
    var inner := BlankPrefix(v[1..]);
    var members := MembersAreLayout(lib, SkipBlank(v[1..]), map[]);
    SkippedObjectRest(lib, v[1..], map[]);
    l := ObjectOf(inner, members);
    assert v == [OPEN_BRACE] + v[1..];
    Regroup([OPEN_BRACE], inner, PrintMembers(members), r.rest);
  }

  lemma SkippedObjectRest(lib: Library, u: Text, m: map<Text, Value>)
    ensures ObjectRest(lib, SkipBlank(u), m) == ObjectRest(lib, u, m)
  {
    var pad := BlankPrefix(u);
  }

  // ---------- what stands behind a member or an element ----------

  function If(b: bool, t: Text): Text {
    if b then t else []
  }

  /** Blanks, perhaps a separator and blanks, and the closing bracket if it was met. */
  lemma EndIsLayout(u: Text, close: CodeUnit, error: Error) returns (blank: Text, separator: Text, pad: Text)
    requires close != 0 && ItemEnd(u, close, error).Ok?
    ensures Blank(blank) && Blank(pad) && (separator == [] || (|separator| == 1 && IsSeparator(separator[0])))
    ensures var r := ItemEnd(u, close, error);
            && u == blank + (separator + (pad + (If(r.value, [close]) + r.rest)))
            && (separator == [] ==> pad == [] && r.value)
            && (!r.value ==> SkipBlank(r.rest) == r.rest)
  {
    var r := ItemEnd(u, close, error);
    var s := SkipBlank(u);
    blank := BlankPrefix(u);
    assert s == [s[0]] + s[1..];
    if IsSeparator(s[0]) {
      separator := [s[0]];
      pad := BlankPrefix(s[1..]);
      var t := SkipBlank(s[1..]);
      if r.value {
        assert t == [close] + r.rest;
      } else {
        assert t == [] + r.rest;
      }
    } else {
      separator, pad := [], [];
      assert s == [] + ([] + ([close] + r.rest));
    }
  }

  // ---------- objects ----------

  lemma {:induction false} PairIsLayout(lib: Library, u: Text) returns (x: MemberText)
    requires SkipBlank(u) == u && Pair(lib, u).Ok?
    ensures WellFormedMember(lib, x) && KeysDifferMember(lib, x)
    ensures var r := Pair(lib, u);
            r.value == (KeyOf(lib, x), Denotes(lib, x.value)) && u == PrintMember(x) + r.rest
    decreases |u|, 2
  {
    var afterKey := NextValue(lib, u).rest;
    var keyPad, key, keyEnd := NextValueIsLayout(lib, u);
    var blank := BlankPrefix(afterKey);
    var w := SkipBlank(afterKey);
    var behind := KeySeparator(afterKey).rest;
    var colon := ColonIsLayout(afterKey);
    var before, value, after := NextValueIsLayout(lib, behind);
    x := MemberText(key, keyEnd + blank, colon, before, value, after);
    BlanksJoin(keyEnd, blank);
    LayoutStarts(lib, key);
    NoPad(u, keyPad, Print(key) + (keyEnd + afterKey));
    LayoutStarts(lib, value);
    assert Head(behind) == Head(before + Print(value));
    hide NextValue, Print, Denotes;
    MemberJoins(Print(key), keyEnd, blank, colon, before, Print(value), after, Pair(lib, u).rest);
  }

  lemma MemberJoins(
    key: Text, keyEnd: Text, blank: Text, colon: Text, before: Text, value: Text, after: Text, rest: Text)
    ensures key + (keyEnd + (blank + (colon + (before + (value + (after + rest))))))
         == key + (keyEnd + blank) + colon + before + value + after + rest
  {
  }

  /** The sign between a key and its value. */
  lemma ColonIsLayout(u: Text) returns (colon: Text)
    requires KeySeparator(u).Ok?
    ensures colon == [COLON] || colon == [EQUALS] || colon == [EQUALS, GREATER]
    ensures SkipBlank(u) == colon + KeySeparator(u).rest
    ensures colon == [EQUALS] ==> Head(KeySeparator(u).rest) != GREATER
  {
    var w := SkipBlank(u);
    assert w == [w[0]] + w[1..];
    if Head(w) == COLON {
      colon := [COLON];
    } else if Head(w[1..]) == GREATER {
      colon := [EQUALS, GREATER];
      assert w == [w[0], w[1]] + w[2..];
    } else {
      colon := [EQUALS];
    }
  }

  /** More blanks behind a member change nothing else about it. */
  lemma MemberWithBlanks(lib: Library, x: MemberText, blank: Text) returns (y: MemberText)
    requires WellFormedMember(lib, x) && KeysDifferMember(lib, x) && Blank(blank)
    ensures y == x.(after := x.after + blank)
    ensures WellFormedMember(lib, y) && KeysDifferMember(lib, y) && KeyOf(lib, y) == KeyOf(lib, x)
    ensures PrintMember(y) == PrintMember(x) + blank
  {
    y := x.(after := x.after + blank);
    BlanksJoin(x.after, blank);
    Assoc(Print(x.key) + x.afterKey + x.colon + x.beforeValue + Print(x.value), x.after, blank);
  }

  /** The loop of the object constructor at one member. */
  lemma {:induction false} MemberIsLayout(lib: Library, u: Text, m: map<Text, Value>)
    returns (y: MemberText, separator: Text, pad: Text, closed: bool, after: Text)
    requires SkipBlank(u) == u && ObjectRest(lib, u, m).Ok? && Head(u) != CLOSE_BRACE
    ensures WellFormedMember(lib, y) && KeysDifferMember(lib, y) && KeyOf(lib, y) !in m && Blank(pad)
    ensures if separator == [] then pad == [] && closed else |separator| == 1 && IsSeparator(separator[0])
    ensures u == PrintMember(y) + (separator + (pad + (If(closed, [CLOSE_BRACE]) + after)))
    ensures var m' := m[KeyOf(lib, y) := Denotes(lib, y.value)];
            ObjectRest(lib, u, m) == if closed then Ok(Obj(m'), after) else ObjectRest(lib, after, m')
    ensures |after| < |u| && (!closed ==> SkipBlank(after) == after)
    decreases |u|, 3
  {
    var x := PairIsLayout(lib, u);
    var end := ItemEnd(Pair(lib, u).rest, CLOSE_BRACE, PairSeparator);
    closed, after := end.value, end.rest;
    var blank;
    blank, separator, pad := EndIsLayout(Pair(lib, u).rest, CLOSE_BRACE, PairSeparator);
    y := MemberWithBlanks(lib, x, blank);
    hide PrintMember, WellFormedMember, KeysDifferMember, KeyOf, Denotes, Pair;
    Assoc(PrintMember(x), blank, separator + (pad + (If(closed, [CLOSE_BRACE]) + after)));
  }

  lemma {:induction false} MembersAreLayout(lib: Library, u: Text, m: map<Text, Value>) returns (members: Members)
    requires SkipBlank(u) == u && ObjectRest(lib, u, m).Ok?
    ensures var r := ObjectRest(lib, u, m);
            && WellFormedMembers(lib, members) && KeysDifferMembers(lib, members, m)
            && u == PrintMembers(members) + r.rest && r.value == Obj(DenotesMembers(lib, members, m))
    decreases |u|, 4
  {
    var rest := ObjectRest(lib, u, m).rest;
    if Head(u) == CLOSE_BRACE {
      members := CloseObject;
      assert u == [CLOSE_BRACE] + u[1..];
    } else {
      var y, separator, pad, closed, after := MemberIsLayout(lib, u, m);
      if separator == [] {
        members := LastMember(y);
        LastMemberText(y, rest);
      } else {
        var more := CloseObject;
        if !closed {
          more := MembersAreLayout(lib, after, m[KeyOf(lib, y) := Denotes(lib, y.value)]);
          assert [] + after == after;
        }
        members := MemberThen(y, separator[0], pad, more);
        MemberThenText(y, separator, pad, more, rest);
      }
      hide ObjectRest, PrintMember, PrintMembers, WellFormedMember, KeysDifferMember, KeyOf, Denotes, SkipBlank;
    }
  }

  lemma LastMemberText(y: MemberText, rest: Text)
    ensures PrintMember(y) + ([] + ([] + ([CLOSE_BRACE] + rest))) == PrintMembers(LastMember(y)) + rest
  {
    hide PrintMember;
    assert [] + ([] + ([CLOSE_BRACE] + rest)) == [CLOSE_BRACE] + rest;
    Assoc(PrintMember(y), [CLOSE_BRACE], rest);
  }

  lemma MemberThenText(y: MemberText, separator: Text, pad: Text, more: Members, rest: Text)
    requires |separator| == 1
    ensures PrintMember(y) + (separator + (pad + (PrintMembers(more) + rest)))
         == PrintMembers(MemberThen(y, separator[0], pad, more)) + rest
  {
    hide PrintMember;
    Regroup4(PrintMember(y), separator, pad, PrintMembers(more), rest);
    assert separator == [separator[0]];
  }

  lemma Regroup4(a: Text, b: Text, c: Text, d: Text, e: Text)
    ensures a + (b + (c + (d + e))) == a + b + c + d + e
  {
  }

  // ---------- arrays ----------

  /** The converse of `ArrayTextReads`. */
  lemma {:induction false} ArrayIsLayout(lib: Library, u: Text) returns (pad: Text, l: Layout)
    requires ParseArray(lib, u).Ok?
    ensures var r := ParseArray(lib, u);
            && Blank(pad) && l.ArrayOf? && WellFormed(lib, l) && KeysDiffer(lib, l)
            && u == pad + (Print(l) + r.rest) && r.value == Denotes(lib, l)
    decreases |u|, 0
  {
    var r := ParseArray(lib, u);
    var v := SkipBlank(u);
    pad := BlankPrefix(u);
    var inner := BlankPrefix(v[1..]);
    var w := SkipBlank(v[1..]);
    var items := CloseArray;
    if Head(w) == CLOSE_BRACKET {
      assert w == [CLOSE_BRACKET] + w[1..];
    } else {
      items := ItemsAreLayout(lib, w, []);
      assert [] + DenotesItems(lib, items) == DenotesItems(lib, items);
    }
    l := ArrayOf(inner, items);
    assert v == [OPEN_BRACKET] + v[1..];
    Regroup([OPEN_BRACKET], inner, PrintItems(items), r.rest);
    Assoc([OPEN_BRACKET] + inner, PrintItems(items), r.rest);
  }

  /** The loop of the array constructor at one element, which is left out where x is absent. */
  lemma {:induction false} ItemIsLayout(lib: Library, u: Text, done: seq<Value>)
    returns (x: Option<Layout>, behind: Text, separator: Text, pad: Text, closed: bool, after: Text)
    requires SkipBlank(u) == u && ArrayRest(lib, u, done).Ok?
    ensures x.Some? ==> WellFormed(lib, x.value) && KeysDiffer(lib, x.value)
    ensures x.None? ==> separator == [COMMA] && behind == []
    ensures Blank(behind) && Blank(pad)
    ensures if separator == [] then pad == [] && closed else |separator| == 1 && IsSeparator(separator[0])
    ensures u == PrintItem(x) + (behind + (separator + (pad + (If(closed, [CLOSE_BRACKET]) + after))))
    ensures var more := done + [if x.Some? then Denotes(lib, x.value) else Null];
            ArrayRest(lib, u, done) == if closed then Ok(Arr(more), after) else ArrayRest(lib, after, more)
    ensures |after| < |u| && (!closed ==> SkipBlank(after) == after)
    decreases |u|, 3
  {
    var afterElement := Element(lib, u).rest;
    var end := ItemEnd(afterElement, CLOSE_BRACKET, ArraySeparator);
    closed, after := end.value, end.rest;
    var blank;
    blank, separator, pad := EndIsLayout(afterElement, CLOSE_BRACKET, ArraySeparator);
    var tail := separator + (pad + (If(closed, [CLOSE_BRACKET]) + after));
    if Head(u) == COMMA {
      NoPad(u, blank, tail);
      x, behind := None, [];
      assert separator == [COMMA];
      assert [] + ([] + tail) == tail;
    } else {
      var itemPad, item, ws := NextValueIsLayout(lib, u);
      LayoutStarts(lib, item);
      NoPad(u, itemPad, Print(item) + (ws + afterElement));
      x, behind := Some(item), ws + blank;
      BlanksJoin(ws, blank);
      Assoc(ws, blank, tail);
    }
  }

  function PrintItem(x: Option<Layout>): Text {
    if x.Some? then Print(x.value) else []
  }

  lemma {:induction false} ItemsAreLayout(lib: Library, u: Text, done: seq<Value>) returns (items: Items)
    requires SkipBlank(u) == u && ArrayRest(lib, u, done).Ok?
    ensures var r := ArrayRest(lib, u, done);
            && WellFormedItems(lib, items) && KeysDifferItems(lib, items)
            && u == PrintItems(items) + r.rest && r.value == Arr(done + DenotesItems(lib, items))
    decreases |u|, 4
  {
    var rest := ArrayRest(lib, u, done).rest;
    var x, behind, separator, pad, closed, after := ItemIsLayout(lib, u, done);
    var value := if x.Some? then Denotes(lib, x.value) else Null;
    var more := CloseArray;
    if !closed {
      more := ItemsAreLayout(lib, after, done + [value]);
      assert [] + after == after;
    }
    Assoc(done, [value], DenotesItems(lib, more));
    assert done + [value] + [] == done + [value];
    if x.None? {
      items := NothingThen(pad, more);
      NothingThenText(separator, pad, more, rest);
    } else if separator == [] {
      items := LastItem(x.value, behind);
      LastItemText(x.value, behind, rest);
    } else {
      items := ItemThen(x.value, behind, separator[0], pad, more);
      ItemThenText(x.value, behind, separator, pad, more, rest);
    }
    hide ArrayRest, WellFormed, KeysDiffer, Denotes, Print, PrintItems, SkipBlank;
  }

  lemma NothingThenText(separator: Text, pad: Text, more: Items, rest: Text)
    requires separator == [COMMA]
    ensures [] + ([] + (separator + (pad + (PrintItems(more) + rest)))) == PrintItems(NothingThen(pad, more)) + rest
  {
    Regroup4([], separator, pad, PrintItems(more), rest);
    assert [] + separator == [COMMA];
  }

  lemma LastItemText(x: Layout, behind: Text, rest: Text)
    ensures Print(x) + (behind + ([] + ([] + ([CLOSE_BRACKET] + rest)))) == PrintItems(LastItem(x, behind)) + rest
  {
    hide Print;
    assert [] + ([] + ([CLOSE_BRACKET] + rest)) == [CLOSE_BRACKET] + rest;
    Assoc(Print(x), behind, [CLOSE_BRACKET] + rest);
    Assoc(Print(x) + behind, [CLOSE_BRACKET], rest);
  }

  lemma ItemThenText(x: Layout, behind: Text, separator: Text, pad: Text, more: Items, rest: Text)
    requires |separator| == 1
    ensures Print(x) + (behind + (separator + (pad + (PrintItems(more) + rest))))
         == PrintItems(ItemThen(x, behind, separator[0], pad, more)) + rest
  {
    hide Print;
    Regroup5(Print(x), behind, separator, pad, PrintItems(more), rest);
    assert separator == [separator[0]];
  }

  lemma Regroup5(a: Text, b: Text, c: Text, d: Text, e: Text, f: Text)
    ensures a + (b + (c + (d + (e + f)))) == a + b + c + d + e + f
  {
  }

  // ---------- the two directions together ----------

  /**
   An object is parsed, with v as its value and rest left unread, if and only if the text is
   that of an object layout without double keys that denotes v, up to blanks in front.
   */
  lemma ObjectAcceptedIff(lib: Library, u: Text, v: Value, rest: Text)
    ensures ParseObject(lib, u) == Ok(v, rest)
            <==> exists pad, l :: IsText(lib, u, pad, l, [], v, rest) && l.ObjectOf?
  {
    if ParseObject(lib, u) == Ok(v, rest) {
      var pad, l := ObjectIsLayout(lib, u);
      assert [] + rest == rest;
      assert IsText(lib, u, pad, l, [], v, rest);
    }
    forall pad, l | IsText(lib, u, pad, l, [], v, rest) && l.ObjectOf? ensures ParseObject(lib, u) == Ok(v, rest) {
      ObjectTextReads(lib, l, pad, rest);
      assert [] + rest == rest;
    }
  }

  lemma ArrayAcceptedIff(lib: Library, u: Text, v: Value, rest: Text)
    ensures ParseArray(lib, u) == Ok(v, rest)
            <==> exists pad, l :: IsText(lib, u, pad, l, [], v, rest) && l.ArrayOf?
  {
    if ParseArray(lib, u) == Ok(v, rest) {
      var pad, l := ArrayIsLayout(lib, u);
      assert [] + rest == rest;
      assert IsText(lib, u, pad, l, [], v, rest);
    }
    forall pad, l | IsText(lib, u, pad, l, [], v, rest) && l.ArrayOf? ensures ParseArray(lib, u) == Ok(v, rest) {
      ArrayTextReads(lib, l, pad, rest);
      assert [] + rest == rest;
    }
  }
}
