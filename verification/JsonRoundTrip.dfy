/**
 Printing and parsing again: what `write` prints denotes the tree, so the parser, and the
 tokener that refines it, give the tree back.
 */
module JsonRoundTrip {
  import opened CodeUnits
  import opened JsonValue
  import opened JsonScalars
  import opened JsonParser
  import opened JsonStrings
  import opened JsonLayout
  import opened JsonPrinter
  import opened Tokener

  /** A layout is legal, whatever the Java library does, and denotes the value v. */
  predicate Spells(lib: Library, l: Layout, v: Value) {
    WellFormed(lib, l) && KeysDiffer(lib, l) && Denotes(lib, l) == v
  }

  lemma ScalarSpells(lib: Library, t: Tree)
    requires Legal(t) && !t.ArrTree? && !t.ObjTree?
    ensures Spells(lib, Pretty(t, 0, 0), Content(t))
  {
    match t
    case NullTree | BoolTree(_) =>
      WordTokensReadBack(lib);
      WordsAreTokens();
    case IntTree(n) =>
      LongTokenReadsBack(lib, n);
      LongTextIsToken(n);
    case StrTree(s) => SpellingsMean(lib, 0, s);
  }

  lemma WordsAreTokens()
    ensures IsToken(TRUE_WORD) && IsToken(FALSE_WORD) && IsToken(NULL_WORD)
  {
  }

  lemma LongTextIsToken(n: int)
    ensures IsToken(LongText(n))
  {
    forall i | 0 <= i < |LongText(n)| ensures IsBare(LongText(n)[i]) && LongText(n)[i] > SPACE {
      assert LongText(n)[i] == MINUS || ZERO <= LongText(n)[i] <= NINE;
    }
  }

  lemma {:induction false} PrettySpells(lib: Library, t: Tree, indentFactor: int, indent: int)
    requires Legal(t)
    ensures Spells(lib, Pretty(t, indentFactor, indent), Content(t))
    decreases t, 1
  {
    if t.ArrTree? {
      PrettyArraySpells(lib, t.items, indentFactor, indent);
    } else if t.ObjTree? {
      PrettyObjectSpells(lib, t.members, indentFactor, indent);
    } else {
      ScalarSpells(lib, t);
    }
  }

  lemma {:induction false} PrettyArraySpells(lib: Library, items: seq<Tree>, indentFactor: int, indent: int)
    requires forall i :: 0 <= i < |items| ==> Legal(items[i])
    ensures Spells(lib, Pretty(ArrTree(items), indentFactor, indent), Content(ArrTree(items)))
    decreases items, 2
  {
    if |items| == 1 {
      PrettySpells(lib, items[0], indentFactor, indent);
      assert Contents(items[1..]) == [];
    } else if items != [] {
      PrettyItemsSpell(lib, items, indentFactor, indent);
      PadIsBlank(indentFactor, indent + indentFactor);
    }
  }

  lemma {:induction false} PrettyObjectSpells(lib: Library, members: seq<Member>, indentFactor: int, indent: int)
    requires Legal(ObjTree(members))
    ensures Spells(lib, Pretty(ObjTree(members), indentFactor, indent), Content(ObjTree(members)))
    decreases members, 3
  {
    if |members| == 1 {
      PrettyMemberSpells(lib, members[0], indentFactor, indent, []);
      SingleObjectSpells(lib, members, indentFactor, indent);
    } else if members != [] {
      PrettyMembersSpell(lib, members, map[], indentFactor, indent);
      PadIsBlank(indentFactor, indent + indentFactor);
    }
  }

  lemma SingleObjectSpells(lib: Library, members: seq<Member>, indentFactor: int, indent: int)
    requires |members| == 1
    requires var l := PrettyMember(members[0], indentFactor, indent, []);
             && WellFormedMember(lib, l) && KeysDifferMember(lib, l)
             && KeyOf(lib, l) == members[0].key && Denotes(lib, l.value) == Content(members[0].tree)
    ensures Spells(lib, Pretty(ObjTree(members), indentFactor, indent), Content(ObjTree(members)))
  {
    hide PrettyMember;
    var l := PrettyMember(members[0], indentFactor, indent, []);
    assert Pretty(ObjTree(members), indentFactor, indent) == ObjectOf([], LastMember(l));
    assert WellFormedMembers(lib, LastMember(l)) && KeysDifferMembers(lib, LastMember(l), map[]);
    assert PutAll(map[], members) == DenotesMembers(lib, LastMember(l), map[]);
  }

  lemma PadIsBlank(indentFactor: int, n: int)
    ensures Blank(NewLine(indentFactor) + Spaces(n)) && Blank(AfterColon(indentFactor))
  {
  }

  lemma {:induction false} PrettyItemsSpell(lib: Library, items: seq<Tree>, indentFactor: int, indent: int)
    requires items != [] && forall i :: 0 <= i < |items| ==> Legal(items[i])
    ensures var l := PrettyItems(items, indentFactor, indent);
            WellFormedItems(lib, l) && KeysDifferItems(lib, l) && DenotesItems(lib, l) == Contents(items)
    decreases items, 1
  {
    PrettySpells(lib, items[0], indentFactor, indent + indentFactor);
    PadIsBlank(indentFactor, indent);
    PadIsBlank(indentFactor, indent + indentFactor);
    if |items| > 1 {
      PrettyItemsSpell(lib, items[1..], indentFactor, indent);
    } else {
      assert Contents(items[1..]) == [];
    }
  }

  lemma {:induction false} PrettyMemberSpells(
    lib: Library, member: Member, indentFactor: int, indent: int, after: Text)
    requires Legal(member.tree) && Blank(after)
    ensures var l := PrettyMember(member, indentFactor, indent, after);
            && WellFormedMember(lib, l) && KeysDifferMember(lib, l)
            && KeyOf(lib, l) == member.key && Denotes(lib, l.value) == Content(member.tree)
    decreases member, 1
  {
    hide Pretty, Spellings, MeaningAll;
    SpellingsMean(lib, 0, member.key);
    PrettySpells(lib, member.tree, indentFactor, indent);
    PadIsBlank(indentFactor, indent);
  }

  lemma {:induction false} PrettyMembersSpell(
    lib: Library, members: seq<Member>, m: map<Text, Value>, indentFactor: int, indent: int)
    requires members != [] && forall i :: 0 <= i < |members| ==> Legal(members[i].tree)
    requires forall i, j :: 0 <= i < j < |members| ==> members[i].key != members[j].key
    requires forall i :: 0 <= i < |members| ==> members[i].key !in m
    ensures var l := PrettyMembers(members, indentFactor, indent);
            WellFormedMembers(lib, l) && KeysDifferMembers(lib, l, m) && DenotesMembers(lib, l, m) == PutAll(m, members)
    decreases members, 2
  {
    PadIsBlank(indentFactor, indent);
    PadIsBlank(indentFactor, indent + indentFactor);
    var m' := m[members[0].key := Content(members[0].tree)];
    if |members| > 1 {
      PrettyMemberSpells(lib, members[0], indentFactor, indent + indentFactor, []);
      PrettyMembersSpell(lib, members[1..], m', indentFactor, indent);
    } else {
      PrettyMemberSpells(lib, members[0], indentFactor, indent + indentFactor, NewLine(indentFactor) + Spaces(indent));
      assert PutAll(m', members[1..]) == m';
    }
  }

  /**
   The round trip: whatever the indentation and the iteration orders, the text that `write`
   prints for an object is parsed to an object with the same content, and any text behind it
   stays unread.
   */
  lemma ObjectRoundTrip(lib: Library, t: Tree, indentFactor: int, indent: int, rest: Text)
    requires Legal(t) && t.ObjTree?
    ensures ParseObject(lib, Print(Pretty(t, indentFactor, indent)) + rest) == Ok(Content(t), rest)
  {
    var l := Pretty(t, indentFactor, indent);
    PrettySpells(lib, t, indentFactor, indent);
    ObjectTextReads(lib, l, [], rest);
    assert [] + (Print(l) + rest) == Print(l) + rest;
  }

  lemma ArrayRoundTrip(lib: Library, t: Tree, indentFactor: int, indent: int, rest: Text)
    requires Legal(t) && t.ArrTree?
    ensures ParseArray(lib, Print(Pretty(t, indentFactor, indent)) + rest) == Ok(Content(t), rest)
  {
    var l := Pretty(t, indentFactor, indent);
    PrettySpells(lib, t, indentFactor, indent);
    ArrayTextReads(lib, l, [], rest);
    assert [] + (Print(l) + rest) == Print(l) + rest;
  }

  /** Any value, where the text behind it cannot run into an unquoted token. */
  lemma ValueRoundTrip(lib: Library, t: Tree, indentFactor: int, indent: int, rest: Text)
    requires Legal(t) && Stops(rest)
    ensures var r := NextValue(lib, Print(Pretty(t, indentFactor, indent)) + rest);
            r.Ok? && r.value == Content(t) && SkipBlank(r.rest) == SkipBlank(rest)
  {
    PrettySpells(lib, t, indentFactor, indent);
    LayoutReads(lib, Pretty(t, indentFactor, indent), rest);
  }

  /** Different contents are never printed alike, in whatever orders and indentations. */
  lemma PrintIsInjective(s: Tree, t: Tree, f: int, i: int, g: int, j: int)
    requires Legal(s) && Legal(t)
    requires Print(Pretty(s, f, i)) == Print(Pretty(t, g, j))
    ensures Content(s) == Content(t)
  {
    var lib := Library(_ => -1, _ => false, _ => []);
    assert Stops([]);
    ValueRoundTrip(lib, s, f, i, []);
    ValueRoundTrip(lib, t, g, j, []);
  }

  /**
   The lenient spellings change nothing: if a layout with any of the tolerated freedoms
   denotes what the printed text denotes, the parser reads the same value from both.
   */
  lemma LenientTextReadsAlike(
    lib: Library, l: Layout, t: Tree, indentFactor: int, indent: int, pad: Text, rest: Text)
    requires Legal(t) && t.ObjTree? && l.ObjectOf? && Blank(pad)
    requires Spells(lib, l, Content(t))
    ensures ParseObject(lib, pad + (Print(l) + rest))
         == ParseObject(lib, Print(Pretty(t, indentFactor, indent)) + rest)
  {
    ObjectTextReads(lib, l, pad, rest);
    ObjectRoundTrip(lib, t, indentFactor, indent, rest);
  }

  /** `new JSONObject(jo.toString(indentFactor))`, run by the printer and the tokener. */
  method PrintAndParse(lib: Library, t: Tree, indentFactor: int) returns (r: Result<Value>)
    requires Legal(t) && t.ObjTree?
    ensures r == Return(Content(t))
  {
    var w := new Writer();
    w.WriteObject(t.members, indentFactor, 0);
    assert [] + Print(Pretty(t, indentFactor, 0)) == Print(Pretty(t, indentFactor, 0)) + [];
    ObjectRoundTrip(lib, t, indentFactor, 0, []);
    var x := new JSONTokener(lib, w.out);
    r := x.ReadObject();
  }
}
