/**
 The printers `JSONObject.write`, `JSONArray.write`, `writeValue` and `quote`, and the
 round trip through the parser.
 */
module JsonPrinter {
  import opened CodeUnits
  import opened Sequences
  import opened JsonValue
  import opened JsonScalars
  import opened JsonStrings
  import opened JsonLayout

  // ---------- the layout that write chooses ----------

  function NewLine(indentFactor: int): Text {
    if indentFactor > 0 then [LF] else []
  }

  function AfterColon(indentFactor: int): Text {
    if indentFactor > 0 then [SPACE] else []
  }

  function Pretty(t: Tree, indentFactor: int, indent: int): Layout
    decreases t, 0
  {
    match t
    case NullTree => Token(NULL_WORD)
    case BoolTree(b) => Token(if b then TRUE_WORD else FALSE_WORD)
    case IntTree(n) => Token(LongText(n))
    case StrTree(s) => Literal(QUOTE, Spellings(0, s))
    case ArrTree(items) =>
      if items == [] then ArrayOf([], CloseArray)
      else if |items| == 1 then ArrayOf([], LastItem(Pretty(items[0], indentFactor, indent), []))
      else ArrayOf(NewLine(indentFactor) + Spaces(indent + indentFactor), PrettyItems(items, indentFactor, indent))
    case ObjTree(members) =>
      if members == [] then ObjectOf([], CloseObject)
      else if |members| == 1 then
        ObjectOf([], LastMember(PrettyMember(members[0], indentFactor, indent, [])))
      else
        ObjectOf(NewLine(indentFactor) + Spaces(indent + indentFactor), PrettyMembers(members, indentFactor, indent))
  }

  function PrettyItems(items: seq<Tree>, indentFactor: int, indent: int): Items
    requires items != []
    decreases items, 1
  {
    var item := Pretty(items[0], indentFactor, indent + indentFactor);
    if |items| == 1 then LastItem(item, NewLine(indentFactor) + Spaces(indent))
    else
      ItemThen(item, [], COMMA, NewLine(indentFactor) + Spaces(indent + indentFactor),
               PrettyItems(items[1..], indentFactor, indent))
  }

  function PrettyMembers(members: seq<Member>, indentFactor: int, indent: int): Members
    requires members != []
    decreases members, 1
  {
    if |members| == 1 then
      LastMember(PrettyMember(members[0], indentFactor, indent + indentFactor, NewLine(indentFactor) + Spaces(indent)))
    else
      MemberThen(PrettyMember(members[0], indentFactor, indent + indentFactor, []), COMMA,
                 NewLine(indentFactor) + Spaces(indent + indentFactor),
                 PrettyMembers(members[1..], indentFactor, indent))
  }

  function PrettyMember(member: Member, indentFactor: int, indent: int, after: Text): MemberText
    decreases member, 1
  {
    MemberText(Literal(QUOTE, Spellings(0, member.key)), [], [COLON], AfterColon(indentFactor),
               Pretty(member.tree, indentFactor, indent), after)
  }

  // ---------- the printers ----------

  class Writer {
    var out: Text

    constructor ()
      ensures out == []
    {
      out := [];
    }

    method Write(s: Text)
      modifies this
      ensures out == old(out) + s
    {
      out := out + s;
    }

    method Indent(indent: int)
      modifies this
      ensures out == old(out) + Spaces(indent)
    {
      var i := 0;
      while i < indent
        invariant 0 <= i && (i <= indent || i == 0)
        invariant out == old(out) + Spaces(i)
      {
        out := out + [SPACE];
        i := i + 1;
      }
    }

    /** `quote`: each character as it is, behind a backslash, or as a \u escape. */
    method WriteQuoted(s: Text)
      modifies this
      ensures out == old(out) + Quote(s)
    {
      if s == [] {
        Write([QUOTE, QUOTE]);
        return;
      }
      hide Quote, Spelling, QuoteFrom;
      QuoteStarts(s);
      var b: CodeUnit, c: CodeUnit := 0, 0;
      Write([QUOTE]);
      ghost var all := out + QuoteFrom(0, s, 0);
      for i := 0 to |s|
        invariant out + QuoteFrom(c, s, i) == all
      {
        ghost var before := out;
        b := c;
        c := s[i];
        QuoteStep(b, s, i);
        WriteCharacter(b, c);
        Assoc(before, Render(Spelling(b, c)), QuoteFrom(c, s, i + 1));
      }
      QuoteEnds(c, s);
      Write([QUOTE]);
      Assoc(old(out), [QUOTE], QuoteFrom(0, s, 0));
    }

    /** The switch of `quote` over the character c that follows b. */
    method WriteCharacter(b: CodeUnit, c: CodeUnit)
      modifies this
      ensures out == old(out) + Render(Spelling(b, c))
    {
      if c == BACKSLASH || c == QUOTE {
        Write([BACKSLASH]);
        Write([c]);
      } else if c == SLASH {
        if b == LESS {
          Write([BACKSLASH]);
        }
        Write([c]);
      } else if c == BACKSPACE {
        Write([BACKSLASH, LETTER_B]);
      } else if c == TAB {
        Write([BACKSLASH, LETTER_T]);
      } else if c == LF {
        Write([BACKSLASH, LETTER_N]);
      } else if c == FF {
        Write([BACKSLASH, LETTER_F]);
      } else if c == CR {
        Write([BACKSLASH, LETTER_R]);
      } else if c < SPACE || (c >= 0x80 && c < 0xA0) || (c >= 0x2000 && c < 0x2100) {
        HexTextOfCodeUnit(c);
        Write([BACKSLASH, LETTER_U]);
        hide HexText, Zeros;
        var hhhh := HexText(c);
        Write(Zeros(4 - |hhhh|));
        Write(hhhh);
      } else {
        Write([c]);
      }
    }

    method WriteValue(t: Tree, indentFactor: int, indent: int)
      modifies this
      ensures out == old(out) + Print(Pretty(t, indentFactor, indent))
      decreases t, 1
    {
      match t
      case NullTree => Write(NULL_WORD);
      case BoolTree(b) => Write(if b then TRUE_WORD else FALSE_WORD);
      case IntTree(n) => Write(LongText(n));
      case StrTree(s) => WriteQuoted(s);
      case ArrTree(items) => WriteArray(items, indentFactor, indent);
      case ObjTree(members) => WriteObject(members, indentFactor, indent);
    }

    /** What both loops write before an item: the comma, the line break and the indentation. */
    method WriteLead(commanate: bool, indentFactor: int, newIndent: int)
      modifies this
      ensures out == old(out) + Lead(commanate, indentFactor, newIndent)
    {
      if commanate {
        Write([COMMA]);
      }
      if indentFactor > 0 {
        Write([LF]);
      }
      Indent(newIndent);
    }

    method WriteEnd(indentFactor: int, indent: int, close: CodeUnit)
      modifies this
      ensures out == old(out) + End(indentFactor, indent, close)
    {
      if indentFactor > 0 {
        Write([LF]);
      }
      Indent(indent);
      Write([close]);
    }

    method WritePair(member: Member, indentFactor: int, indent: int)
      modifies this
      ensures out == old(out) + PairText(member, indentFactor, indent)
      decreases member, 2
    {
      hide Pretty, Print, Quote;
      WriteQuoted(member.key);
      Write([COLON]);
      if indentFactor > 0 {
        Write([SPACE]);
      }
      WriteValue(member.tree, indentFactor, indent);
    }

    /** `JSONArray.write`. */
    method WriteArray(items: seq<Tree>, indentFactor: int, indent: int)
      modifies this
      ensures out == old(out) + Print(Pretty(ArrTree(items), indentFactor, indent))
      decreases items, 1
    {
      ArrayText(items, indentFactor, indent);
      hide Pretty, Print, ItemsFrom;
      Write([OPEN_BRACKET]);
      if |items| <= 1 {
        if |items| == 1 {
          WriteValue(items[0], indentFactor, indent);
        }
        Write([CLOSE_BRACKET]);
        return;
      }
      WriteAllItems(items, indentFactor, indent);
    }

    /** Its loop, for more than one element. */
    method WriteAllItems(items: seq<Tree>, indentFactor: int, indent: int)
      modifies this
      ensures out == old(out) + ItemsFrom(items, 0, indentFactor, indent)
      decreases items, 0
    {
      hide Pretty, Print, Lead, End;
      var commanate := false;
      var newIndent := indent + indentFactor;
      for i := 0 to |items|
        invariant commanate <==> i > 0
        invariant out + ItemsFrom(items, i, indentFactor, indent) == old(out) + ItemsFrom(items, 0, indentFactor, indent)
      {
        ghost var before := out;
        WriteLead(commanate, indentFactor, newIndent);
        WriteValue(items[i], indentFactor, newIndent);
        commanate := true;
        Regroup(before, Lead(i > 0, indentFactor, newIndent), Print(Pretty(items[i], indentFactor, newIndent)),
                ItemsFrom(items, i + 1, indentFactor, indent));
      }
      WriteEnd(indentFactor, indent, CLOSE_BRACKET);
    }

    /** `JSONObject.write`, over the keys in the order the map gives them. */
    method WriteObject(members: seq<Member>, indentFactor: int, indent: int)
      modifies this
      ensures out == old(out) + Print(Pretty(ObjTree(members), indentFactor, indent))
      decreases members, 1
    {
      ObjectText(members, indentFactor, indent);
      hide Pretty, Print, MembersFrom, PairText;
      Write([OPEN_BRACE]);
      if |members| <= 1 {
        if |members| == 1 {
          WritePair(members[0], indentFactor, indent);
        }
        Write([CLOSE_BRACE]);
        return;
      }
      WriteAllMembers(members, indentFactor, indent);
    }

    /** Its loop, for more than one member. */
    method WriteAllMembers(members: seq<Member>, indentFactor: int, indent: int)
      modifies this
      ensures out == old(out) + MembersFrom(members, 0, indentFactor, indent)
      decreases members, 0
    {
      hide Pretty, Print, Lead, End, PairText;
      var commanate := false;
      var newIndent := indent + indentFactor;
      for i := 0 to |members|
        invariant commanate <==> i > 0
        invariant out + MembersFrom(members, i, indentFactor, indent) == old(out) + MembersFrom(members, 0, indentFactor, indent)
      {
        ghost var before := out;
        WriteLead(commanate, indentFactor, newIndent);
        WritePair(members[i], indentFactor, newIndent);
        commanate := true;
        Regroup(before, Lead(i > 0, indentFactor, newIndent), PairText(members[i], indentFactor, newIndent),
                MembersFrom(members, i + 1, indentFactor, indent));
      }
      WriteEnd(indentFactor, indent, CLOSE_BRACE);
    }
  }

  // ---------- what the loops have still to print ----------

  /** What `quote` has still to write before character i, which follows b. */
  ghost function QuoteFrom(b: CodeUnit, s: Text, i: nat): Text
    requires i <= |s|
  {
    RenderAll(Spellings(b, s[i..])) + [QUOTE]
  }

  lemma QuoteStarts(s: Text)
    ensures Quote(s) == [QUOTE] + QuoteFrom(0, s, 0)
  {
    assert s[0..] == s;
    Assoc([QUOTE], RenderAll(Spellings(0, s)), [QUOTE]);
  }

  lemma QuoteStep(b: CodeUnit, s: Text, i: nat)
    requires i < |s|
    ensures QuoteFrom(b, s, i) == Render(Spelling(b, s[i])) + QuoteFrom(s[i], s, i + 1)
  {
    assert s[i..][1..] == s[i + 1..];
    Assoc(Render(Spelling(b, s[i])), RenderAll(Spellings(s[i], s[i + 1..])), [QUOTE]);
  }

  lemma QuoteEnds(b: CodeUnit, s: Text)
    ensures QuoteFrom(b, s, |s|) == [QUOTE]
  {
    assert s[|s|..] == [];
  }

  /** What a loop prints before an item. */
  function Lead(comma: bool, indentFactor: int, newIndent: int): Text {
    (if comma then [COMMA] else []) + NewLine(indentFactor) + Spaces(newIndent)
  }

  /** What it prints behind the last one. */
  function End(indentFactor: int, indent: int, close: CodeUnit): Text {
    NewLine(indentFactor) + Spaces(indent) + [close]
  }

  function PairText(member: Member, indentFactor: int, indent: int): Text {
    Quote(member.key) + [COLON] + AfterColon(indentFactor) + Print(Pretty(member.tree, indentFactor, indent))
  }

  /** What the array loop prints from element i on, closing bracket included. */
  ghost function ItemsFrom(items: seq<Tree>, i: nat, indentFactor: int, indent: int): Text
    requires i <= |items|
    decreases |items| - i
  {
    if i == |items| then End(indentFactor, indent, CLOSE_BRACKET)
    else
      Lead(i > 0, indentFactor, indent + indentFactor)
      + (Print(Pretty(items[i], indentFactor, indent + indentFactor))
         + ItemsFrom(items, i + 1, indentFactor, indent))
  }

  ghost function MembersFrom(members: seq<Member>, i: nat, indentFactor: int, indent: int): Text
    requires i <= |members|
    decreases |members| - i
  {
    if i == |members| then End(indentFactor, indent, CLOSE_BRACE)
    else
      Lead(i > 0, indentFactor, indent + indentFactor)
      + (PairText(members[i], indentFactor, indent + indentFactor)
         + MembersFrom(members, i + 1, indentFactor, indent))
  }

  lemma RegroupMore(p: Text, d: Text, pad: Text, more: Text)
    ensures p + [] + d + pad + more == p + (d + pad + more)
  {
  }

  lemma RegroupSingle(a: Text, p: Text, b: Text)
    ensures a + [] + (p + [] + b) == a + p + b
  {
  }

  lemma RegroupEnd(p: Text, a: Text, b: Text, d: Text)
    ensures p + (a + b) + d == p + (a + b + d)
  {
  }

  lemma LeadWithComma(indentFactor: int, newIndent: int)
    ensures Lead(true, indentFactor, newIndent) == [COMMA] + (NewLine(indentFactor) + Spaces(newIndent))
    ensures Lead(false, indentFactor, newIndent) == NewLine(indentFactor) + Spaces(newIndent)
  {
  }

  lemma {:induction false} ItemsFromText(items: seq<Tree>, i: nat, indentFactor: int, indent: int)
    requires i < |items|
    ensures ItemsFrom(items, i, indentFactor, indent)
         == Lead(i > 0, indentFactor, indent + indentFactor)
            + PrintItems(PrettyItems(items[i..], indentFactor, indent))
    decreases |items| - i
  {
    PrettyItemsText(items[i..], indentFactor, indent);
    assert items[i..][0] == items[i] && items[i..][1..] == items[i + 1..];
    if i + 1 < |items| {
      ItemsFromText(items, i + 1, indentFactor, indent);
    }
  }

  lemma PrettyItemsText(items: seq<Tree>, indentFactor: int, indent: int)
    requires items != []
    ensures PrintItems(PrettyItems(items, indentFactor, indent))
         == Print(Pretty(items[0], indentFactor, indent + indentFactor))
            + (if |items| == 1 then End(indentFactor, indent, CLOSE_BRACKET)
               else Lead(true, indentFactor, indent + indentFactor)
                    + PrintItems(PrettyItems(items[1..], indentFactor, indent)))
  {
    var p := Print(Pretty(items[0], indentFactor, indent + indentFactor));
    if |items| == 1 {
      RegroupEnd(p, NewLine(indentFactor), Spaces(indent), [CLOSE_BRACKET]);
    } else {
      var pad := NewLine(indentFactor) + Spaces(indent + indentFactor);
      var more := PrintItems(PrettyItems(items[1..], indentFactor, indent));
      LeadWithComma(indentFactor, indent + indentFactor);
      RegroupMore(p, [COMMA], pad, more);
    }
  }

  lemma {:induction false} MembersFromText(members: seq<Member>, i: nat, indentFactor: int, indent: int)
    requires i < |members|
    ensures MembersFrom(members, i, indentFactor, indent)
         == Lead(i > 0, indentFactor, indent + indentFactor)
            + PrintMembers(PrettyMembers(members[i..], indentFactor, indent))
    decreases |members| - i
  {
    PrettyMembersText(members[i..], indentFactor, indent);
    assert members[i..][0] == members[i] && members[i..][1..] == members[i + 1..];
    if i + 1 < |members| {
      MembersFromText(members, i + 1, indentFactor, indent);
    }
  }

  lemma PrettyMembersText(members: seq<Member>, indentFactor: int, indent: int)
    requires members != []
    ensures PrintMembers(PrettyMembers(members, indentFactor, indent))
         == PairText(members[0], indentFactor, indent + indentFactor)
            + (if |members| == 1 then End(indentFactor, indent, CLOSE_BRACE)
               else Lead(true, indentFactor, indent + indentFactor)
                    + PrintMembers(PrettyMembers(members[1..], indentFactor, indent)))
  {
    hide PrintMember, PrettyMember, PairText, NewLine, Spaces;
    var p := PairText(members[0], indentFactor, indent + indentFactor);
    if |members| == 1 {
      var after := NewLine(indentFactor) + Spaces(indent);
      PrettyMemberText(members[0], indentFactor, indent + indentFactor, after);
      RegroupEnd(p, NewLine(indentFactor), Spaces(indent), [CLOSE_BRACE]);
    } else {
      var pad := NewLine(indentFactor) + Spaces(indent + indentFactor);
      var more := PrintMembers(PrettyMembers(members[1..], indentFactor, indent));
      PrettyMemberText(members[0], indentFactor, indent + indentFactor, []);
      LeadWithComma(indentFactor, indent + indentFactor);
      RegroupMore(p, [COMMA], pad, more);
    }
  }

  lemma PrettyMemberText(member: Member, indentFactor: int, indent: int, after: Text)
    ensures PrintMember(PrettyMember(member, indentFactor, indent, after))
         == PairText(member, indentFactor, indent) + after
  {
    var m := PrettyMember(member, indentFactor, indent, after);
    assert Print(m.key) == Quote(member.key);
    assert Print(m.key) + [] + [COLON] == Quote(member.key) + [COLON];
  }

  lemma ArrayText(items: seq<Tree>, indentFactor: int, indent: int)
    ensures Print(Pretty(ArrTree(items), indentFactor, indent)) ==
            if items == [] then [OPEN_BRACKET, CLOSE_BRACKET]
            else if |items| == 1 then [OPEN_BRACKET] + Print(Pretty(items[0], indentFactor, indent)) + [CLOSE_BRACKET]
            else [OPEN_BRACKET] + ItemsFrom(items, 0, indentFactor, indent)
  {
    hide Lead, End, ItemsFrom, NewLine, Spaces;
    assert items[0..] == items;
    if |items| == 1 {
      var p := Print(Pretty(items[0], indentFactor, indent));
      RegroupSingle([OPEN_BRACKET], p, [CLOSE_BRACKET]);
    } else if items != [] {
      ItemsFromText(items, 0, indentFactor, indent);
      LeadWithComma(indentFactor, indent + indentFactor);
      Assoc([OPEN_BRACKET], NewLine(indentFactor) + Spaces(indent + indentFactor),
            PrintItems(PrettyItems(items, indentFactor, indent)));
    }
  }

  lemma ObjectText(members: seq<Member>, indentFactor: int, indent: int)
    ensures Print(Pretty(ObjTree(members), indentFactor, indent)) ==
            if members == [] then [OPEN_BRACE, CLOSE_BRACE]
            else if |members| == 1 then [OPEN_BRACE] + PairText(members[0], indentFactor, indent) + [CLOSE_BRACE]
            else [OPEN_BRACE] + MembersFrom(members, 0, indentFactor, indent)
  {
    hide Lead, End, MembersFrom, PairText, NewLine, Spaces;
    assert members[0..] == members;
    if |members| == 1 {
      PrettyMemberText(members[0], indentFactor, indent, []);
      var p := PairText(members[0], indentFactor, indent);
      RegroupSingle([OPEN_BRACE], p, [CLOSE_BRACE]);
    } else if members != [] {
      MembersFromText(members, 0, indentFactor, indent);
      LeadWithComma(indentFactor, indent + indentFactor);
      Assoc([OPEN_BRACE], NewLine(indentFactor) + Spaces(indent + indentFactor),
            PrintMembers(PrettyMembers(members, indentFactor, indent)));
    }
  }
}
