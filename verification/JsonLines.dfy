/**
 What indented text looks like: the lines of a tree, each with its nesting level, and the text
 that puts them under each other. `write` prints exactly that.
 */
module JsonLines {
  import opened CodeUnits
  import opened Sequences
  import opened JsonValue
  import opened JsonScalars
  import opened JsonStrings
  import opened JsonLayout
  import opened JsonPrinter

  datatype Line = Line(level: nat, text: Text)

  type Lines = ls: seq<Line> | ls != [] witness [Line(0, [])]

  // ---------- the lines of a tree ----------

  function Prefix(a: Text, ls: Lines): Lines {
    [Line(ls[0].level, a + ls[0].text)] + ls[1..]
  }

  function Suffix(ls: Lines, b: Text): Lines {
    var k := |ls| - 1;
    ls[..k] + [Line(ls[k].level, ls[k].text + b)]
  }

  function Deeper(ls: Lines): Lines {
    if |ls| == 1 then [Line(ls[0].level + 1, ls[0].text)]
    else [Line(ls[0].level + 1, ls[0].text)] + Deeper(ls[1..])
  }

  /**
   A container with several entries opens, has the lines of its entries one level deeper with a
   comma behind each but the last, and closes. One with a single entry goes on in the same line.
   gap stands behind each colon.
   */
  function LinesOf(t: Tree, gap: Text): (ls: Lines)
    ensures ls[0].level == 0
    decreases t, 0
  {
    match t
    case NullTree => [Line(0, NULL_WORD)]
    case BoolTree(b) => [Line(0, if b then TRUE_WORD else FALSE_WORD)]
    case IntTree(n) => [Line(0, LongText(n))]
    case StrTree(s) => [Line(0, Quote(s))]
    case ArrTree(items) =>
      if items == [] then [Line(0, [0x5B, 0x5D])]
      else if |items| == 1 then Suffix(Prefix([0x5B], LinesOf(items[0], gap)), [0x5D])
      else [Line(0, [0x5B])] + ItemLines(items, gap) + [Line(0, [0x5D])]
    case ObjTree(members) =>
      if members == [] then [Line(0, [0x7B, 0x7D])]
      else if |members| == 1 then Suffix(Prefix([0x7B], MemberLine(members[0], gap)), [0x7D])
      else [Line(0, [0x7B])] + MemberLines(members, gap) + [Line(0, [0x7D])]
  }

  function ItemLines(items: seq<Tree>, gap: Text): (ls: Lines)
    requires items != []
    ensures ls[0].level == 1
    decreases items, 1
  {
    var first := Deeper(LinesOf(items[0], gap));
    if |items| == 1 then first else Suffix(first, [0x2C]) + ItemLines(items[1..], gap)
  }

  function MemberLine(m: Member, gap: Text): (ls: Lines)
    ensures ls[0].level == 0
    decreases m, 1
  {
    Prefix(Quote(m.key) + [0x3A] + gap, LinesOf(m.tree, gap))
  }

  function MemberLines(members: seq<Member>, gap: Text): (ls: Lines)
    requires members != []
    ensures ls[0].level == 1
    decreases members, 1
  {
    var first := Deeper(MemberLine(members[0], gap));
    if |members| == 1 then first else Suffix(first, [0x2C]) + MemberLines(members[1..], gap)
  }

  // ---------- the text of lines ----------

  /** A line break, for a positive factor, and the indentation of a level. */
  function Break(level: int, indentFactor: int, indent: int): Text {
    (if indentFactor > 0 then [0x0A] else [])
    + seq(if indent + level * indentFactor > 0 then indent + level * indentFactor else 0, _ => 0x20)
  }

  function Join(ls: Lines, indentFactor: int, indent: int): Text {
    if |ls| == 1 then ls[0].text
    else ls[0].text + Break(ls[1].level, indentFactor, indent) + Join(ls[1..], indentFactor, indent)
  }

  lemma JoinPrefix(a: Text, ls: Lines, f: int, i: int)
    ensures Join(Prefix(a, ls), f, i) == a + Join(ls, f, i)
  {
    if |ls| > 1 {
      assert Prefix(a, ls)[1..] == ls[1..];
      Assoc(a, ls[0].text, Break(ls[1].level, f, i));
      Assoc(a, ls[0].text + Break(ls[1].level, f, i), Join(ls[1..], f, i));
    }
  }

  lemma {:induction false} JoinSuffix(ls: Lines, b: Text, f: int, i: int)
    ensures Join(Suffix(ls, b), f, i) == Join(ls, f, i) + b
    decreases |ls|
  {
    if |ls| > 1 {
      JoinSuffix(ls[1..], b, f, i);
      assert Suffix(ls, b)[1..] == Suffix(ls[1..], b);
      Assoc(ls[0].text + Break(ls[1].level, f, i), Join(ls[1..], f, i), b);
    }
  }

  lemma {:induction false} JoinDeeper(ls: Lines, f: int, i: int)
    ensures Join(Deeper(ls), f, i) == Join(ls, f, i + f)
    decreases |ls|
  {
    if |ls| > 1 {
      JoinDeeper(ls[1..], f, i);
      assert Deeper(ls)[1..] == Deeper(ls[1..]);
      BreakDeeper(ls[1].level, f, i);
    }
  }

  lemma BreakDeeper(level: nat, f: int, i: int)
    ensures Break(level + 1, f, i) == Break(level, f, i + f)
  {
    assert i + (level + 1) * f == i + f + level * f;
  }

  lemma {:induction false} JoinAppend(a: Lines, b: Lines, f: int, i: int)
    ensures Join(a + b, f, i) == Join(a, f, i) + Break(b[0].level, f, i) + Join(b, f, i)
    decreases |a|
  {
    if |a| == 1 {
      assert (a + b)[1..] == b;
    } else {
      JoinAppend(a[1..], b, f, i);
      assert (a + b)[1..] == a[1..] + b;
      var x := a[0].text + Break(a[1].level, f, i);
      Assoc(x, Join(a[1..], f, i), Break(b[0].level, f, i));
      Assoc(x, Join(a[1..], f, i) + Break(b[0].level, f, i), Join(b, f, i));
    }
  }

  /** A container with several entries. */
  lemma JoinContainer(open: Text, ls: Lines, close: Text, f: int, i: int)
    requires ls[0].level == 1
    ensures Join([Line(0, open)] + ls + [Line(0, close)], f, i)
         == open + Break(1, f, i) + Join(ls, f, i) + Break(0, f, i) + close
  {
    JoinAppend([Line(0, open)], ls, f, i);
    JoinAppend([Line(0, open)] + ls, [Line(0, close)], f, i);
  }

  // ---------- what `write` prints ----------

  lemma BreakIs(f: int, i: int)
    ensures Break(0, f, i) == NewLine(f) + Spaces(i) && Break(1, f, i) == NewLine(f) + Spaces(i + f)
  {
    assert i + 1 * f == i + f;
  }

  /** What stands behind a colon. */
  function Gap(indentFactor: int): Text {
    if indentFactor > 0 then [0x20] else []
  }

  /** For every tree, factor and indentation the printed text is that of its lines. */
  lemma {:induction false} PrintsLines(t: Tree, f: int, i: int)
    ensures Print(Pretty(t, f, i)) == Join(LinesOf(t, Gap(f)), f, i)
    decreases t, 0
  {
    match t
    case NullTree =>
    case BoolTree(_) =>
    case IntTree(_) =>
    case StrTree(s) =>
    case ArrTree(items) => PrintsArrayLines(items, f, i);
    case ObjTree(members) => PrintsObjectLines(members, f, i);
  }

  function CommaIf(b: bool): Text {
    if b then [0x2C] else []
  }

  /** What the loops print from entry k on, if j is the text of the lines of those entries. */
  function FromEntry(k: nat, j: Text, close: Text, f: int, i: int): Text {
    CommaIf(k > 0) + Break(1, f, i) + j + Break(0, f, i) + close
  }

  /** One entry, of text p, in front of others or at the end. */
  lemma EntryJoins(k: nat, p: Text, more: Text, close: Text, f: int, i: int)
    ensures CommaIf(k > 0) + Break(1, f, i) + (p + (Break(0, f, i) + close)) == FromEntry(k, p, close, f, i)
    ensures CommaIf(k > 0) + Break(1, f, i) + (p + FromEntry(k + 1, more, close, f, i))
         == FromEntry(k, p + [0x2C] + Break(1, f, i) + more, close, f, i)
  {
    hide Break;
  }

  lemma LeadIs(k: nat, f: int, i: int)
    ensures Lead(k > 0, f, i + f) == CommaIf(k > 0) + Break(1, f, i)
    ensures forall c :: End(f, i, c) == Break(0, f, i) + [c]
  {
    BreakIs(f, i);
    hide Break, NewLine, Spaces;
    if k > 0 {
      Assoc([0x2C], NewLine(f), Spaces(i + f));
    }
  }

  lemma {:induction false} PrintsItemLines(items: seq<Tree>, k: nat, f: int, i: int)
    requires k < |items|
    ensures ItemsFrom(items, k, f, i) == FromEntry(k, Join(ItemLines(items[k..], Gap(f)), f, i), [0x5D], f, i)
    decreases items, 2, |items| - k
  {
    var gap := Gap(f);
    var first := Deeper(LinesOf(items[k], gap));
    var p := Print(Pretty(items[k], f, i + f));
    PrintsLines(items[k], f, i + f);
    JoinDeeper(LinesOf(items[k], gap), f, i);
    LeadIs(k, f, i);
    assert items[k..][0] == items[k] && items[k..][1..] == items[k + 1..];
    if k + 1 == |items| {
      EntryJoins(k, p, [], [0x5D], f, i);
    } else {
      var more := ItemLines(items[k + 1..], gap);
      PrintsItemLines(items, k + 1, f, i);
      JoinSuffix(first, [0x2C], f, i);
      JoinAppend(Suffix(first, [0x2C]), more, f, i);
      EntryJoins(k, p, Join(more, f, i), [0x5D], f, i);
    }
    hide Print, Pretty, Join, Break, Lead, End, LinesOf;
  }

  lemma {:induction false} PrintsArrayLines(items: seq<Tree>, f: int, i: int)
    ensures Print(Pretty(ArrTree(items), f, i)) == Join(LinesOf(ArrTree(items), Gap(f)), f, i)
    decreases items, 3
  {
    var gap := Gap(f);
    ArrayText(items, f, i);
    if |items| == 1 {
      PrintsLines(items[0], f, i);
      JoinPrefix([0x5B], LinesOf(items[0], gap), f, i);
      JoinSuffix(Prefix([0x5B], LinesOf(items[0], gap)), [0x5D], f, i);
    } else if items != [] {
      assert items[0..] == items;
      PrintsItemLines(items, 0, f, i);
      JoinContainer([0x5B], ItemLines(items, gap), [0x5D], f, i);
      ContainerText([0x5B], Join(ItemLines(items, gap), f, i), [0x5D], f, i);
    }
    hide Print, Pretty, Join, ItemLines, ItemsFrom, FromEntry, Break;
  }

  lemma ContainerText(open: Text, j: Text, close: Text, f: int, i: int)
    ensures open + FromEntry(0, j, close, f, i) == open + Break(1, f, i) + j + Break(0, f, i) + close
  {
    hide Break;
  }

  lemma {:induction false} PrintsMemberLine(m: Member, f: int, i: int)
    ensures PairText(m, f, i) == Join(MemberLine(m, Gap(f)), f, i)
    decreases m, 1
  {
    PrintsLines(m.tree, f, i);
    JoinPrefix(Quote(m.key) + [0x3A] + Gap(f), LinesOf(m.tree, Gap(f)), f, i);
  }

  lemma {:induction false} PrintsMemberLines(members: seq<Member>, k: nat, f: int, i: int)
    requires k < |members|
    ensures MembersFrom(members, k, f, i)
         == FromEntry(k, Join(MemberLines(members[k..], Gap(f)), f, i), [0x7D], f, i)
    decreases members, 2, |members| - k
  {
    var gap := Gap(f);
    var first := Deeper(MemberLine(members[k], gap));
    var p := PairText(members[k], f, i + f);
    PrintsMemberLine(members[k], f, i + f);
    JoinDeeper(MemberLine(members[k], gap), f, i);
    LeadIs(k, f, i);
    assert members[k..][0] == members[k] && members[k..][1..] == members[k + 1..];
    if k + 1 == |members| {
      EntryJoins(k, p, [], [0x7D], f, i);
    } else {
      var more := MemberLines(members[k + 1..], gap);
      PrintsMemberLines(members, k + 1, f, i);
      JoinSuffix(first, [0x2C], f, i);
      JoinAppend(Suffix(first, [0x2C]), more, f, i);
      EntryJoins(k, p, Join(more, f, i), [0x7D], f, i);
    }
    hide PairText, Join, Break, Lead, End, MemberLine;
  }

  lemma {:induction false} PrintsObjectLines(members: seq<Member>, f: int, i: int)
    ensures Print(Pretty(ObjTree(members), f, i)) == Join(LinesOf(ObjTree(members), Gap(f)), f, i)
    decreases members, 3
  {
    var gap := Gap(f);
    ObjectText(members, f, i);
    if |members| == 1 {
      PrintsMemberLine(members[0], f, i);
      JoinPrefix([0x7B], MemberLine(members[0], gap), f, i);
      JoinSuffix(Prefix([0x7B], MemberLine(members[0], gap)), [0x7D], f, i);
    } else if members != [] {
      assert members[0..] == members;
      PrintsMemberLines(members, 0, f, i);
      JoinContainer([0x7B], MemberLines(members, gap), [0x7D], f, i);
      ContainerText([0x7B], Join(MemberLines(members, gap), f, i), [0x7D], f, i);
    }
    hide Print, Pretty, Join, MemberLines, MemberLine, MembersFrom, FromEntry, Break;
  }
}
