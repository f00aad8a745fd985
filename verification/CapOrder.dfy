/**
 The order of a load file, stated by the names in the archive and the component tags of
 chapter 6 of the Java Card 2.2 Virtual Machine Specification.
 */
module CapOrder {
  import opened Options
  import opened Sequences
  import opened ByteStrings
  import opened CapFile

  /** The contents of the last file of the archive with this end of its name. */
  function Held(archive: seq<Entry>, suffix: string): Bytes {
    if archive == [] then []
    else
      var last := archive[|archive| - 1];
      if EndsWith(last.name, suffix) then last.contents else Held(archive[..|archive| - 1], suffix)
  }

  function SuffixOf(c: Component): string {
    match c
    case Header => "Header.cap"
    case Directory => "Directory.cap"
    case Import => "Import.cap"
    case Applet => "Applet.cap"
    case Class => "Class.cap"
    case Method => "Method.cap"
    case StaticField => "StaticField.cap"
    case Export => "Export.cap"
    case ConstantPool => "ConstantPool.cap"
    case RefLocation => "RefLocation.cap"
    case Descriptor => "Descriptor.cap"
  }

  // ---------- the names tell the components apart ----------

  lemma CharFromEnd(name: string, suffix: string, k: nat)
    requires EndsWith(name, suffix) && k < |suffix|
    ensures k < |name| && name[|name| - 1 - k] == suffix[|suffix| - 1 - k]
  {
    assert name[|name| - |suffix|..][|suffix| - 1 - k] == name[|name| - 1 - k];
  }

  /** The fifth, sixth and ninth characters from the end of a name. */
  function EndChars(c: Component): (char, char, char) {
    match c
    case Header => ('r', 'e', 'e')
    case Directory => ('y', 'r', 'c')
    case Import => ('t', 'r', 'm')
    case Applet => ('t', 'e', 'p')
    case Class => ('s', 's', 'C')
    case Method => ('d', 'o', 'e')
    case StaticField => ('d', 'l', 'F')
    case Export => ('t', 'r', 'x')
    case ConstantPool => ('l', 'o', 't')
    case RefLocation => ('n', 'o', 'a')
    case Descriptor => ('r', 'o', 'i')
  }

  lemma EndCharsAre(c: Component)
    ensures var s := SuffixOf(c);
            |s| >= 9 && EndChars(c) == (s[|s| - 5], s[|s| - 6], s[|s| - 9])
  {
    match c
    case Header =>
    case Directory =>
    case Import =>
    case Applet =>
    case Class =>
    case Method =>
    case StaticField =>
    case Export =>
    case ConstantPool =>
    case RefLocation =>
    case Descriptor =>
  }

  lemma EndCharsDiffer(c: Component, d: Component)
    requires EndChars(c) == EndChars(d)
    ensures c == d
  {
  }

  /** No name has two of these ends. */
  lemma OneSuffix(name: string, c: Component, d: Component)
    requires EndsWith(name, SuffixOf(c)) && EndsWith(name, SuffixOf(d))
    ensures c == d
  {
    hide SuffixOf, EndChars;
    EndCharsAre(c);
    EndCharsAre(d);
    CharFromEnd(name, SuffixOf(c), 4);
    CharFromEnd(name, SuffixOf(d), 4);
    CharFromEnd(name, SuffixOf(c), 5);
    CharFromEnd(name, SuffixOf(d), 5);
    CharFromEnd(name, SuffixOf(c), 8);
    CharFromEnd(name, SuffixOf(d), 8);
    EndCharsDiffer(c, d);
  }

  lemma ComponentBySuffix(name: string, c: Component)
    ensures ComponentOf(name) == Some(c) <==> EndsWith(name, SuffixOf(c))
  {
    ComponentEnds(name);
    if EndsWith(name, SuffixOf(c)) {
      SuffixHasComponent(name, c);
      OneSuffix(name, c, ComponentOf(name).value);
    }
    hide EndsWith, ComponentOf, SuffixOf;
  }

  lemma ComponentEnds(name: string)
    ensures ComponentOf(name).Some? ==> EndsWith(name, SuffixOf(ComponentOf(name).value))
  {
    hide EndsWith;
  }

  lemma SuffixHasComponent(name: string, c: Component)
    requires EndsWith(name, SuffixOf(c))
    ensures ComponentOf(name).Some?
  {
    hide EndsWith;
  }

  lemma {:induction false} HeldIsPart(archive: seq<Entry>, c: Component)
    ensures Held(archive, SuffixOf(c)) == Part(PartsOf(archive), c)
  {
    if archive != [] {
      var k := |archive| - 1;
      HeldIsPart(archive[..k], c);
      ComponentBySuffix(archive[k].name, c);
      hide EndsWith, ComponentOf, SuffixOf;
    }
  }

  /** The load file is what the archive holds under these names, in this order. */
  lemma LoadFileByNames(archive: seq<Entry>)
    ensures LoadFile(PartsOf(archive))
         == Held(archive, "Header.cap") + Held(archive, "Directory.cap") + Held(archive, "Import.cap")
            + Held(archive, "Applet.cap") + Held(archive, "Class.cap") + Held(archive, "Method.cap")
            + Held(archive, "StaticField.cap") + Held(archive, "Export.cap") + Held(archive, "ConstantPool.cap")
            + Held(archive, "RefLocation.cap") + Held(archive, "Descriptor.cap")
  {
    hide Held, Part, PartsOf;
    HeldIsPart(archive, Header);
    HeldIsPart(archive, Directory);
    HeldIsPart(archive, Import);
    HeldIsPart(archive, Applet);
    HeldIsPart(archive, Class);
    HeldIsPart(archive, Method);
    HeldIsPart(archive, StaticField);
    HeldIsPart(archive, Export);
    HeldIsPart(archive, ConstantPool);
    HeldIsPart(archive, RefLocation);
    HeldIsPart(archive, Descriptor);
  }

  // ---------- walking the load file ----------

  /** The components of a load file, cut by their size fields. */
  function Walk(b: Bytes): seq<Bytes>
    decreases |b|
  {
    if |b| < 3 || |b| < GetShort(b, 1) + 3 then []
    else
      var n := GetShort(b, 1) + 3;
      [b[..n]] + Walk(b[n..])
  }

  function Concat(cs: seq<Bytes>): Bytes {
    if cs == [] then [] else cs[0] + Concat(cs[1..])
  }

  function NonEmpty(cs: seq<Bytes>): seq<Bytes> {
    if cs == [] then [] else if cs[0] == [] then NonEmpty(cs[1..]) else [cs[0]] + NonEmpty(cs[1..])
  }

  /** A component with this tag: its size field gives the length of what follows. */
  predicate HasTag(c: Bytes, tag: Byte) {
    |c| >= 3 && c[0] == tag && |c| == GetShort(c, 1) + 3
  }

  lemma {:induction false} WalkConcat(cs: seq<Bytes>)
    requires forall i :: 0 <= i < |cs| ==> cs[i] == [] || HasTag(cs[i], cs[i][0])
    ensures Walk(Concat(cs)) == NonEmpty(cs)
  {
    if cs != [] {
      var c, more := cs[0], Concat(cs[1..]);
      WalkConcat(cs[1..]);
      if c == [] {
        assert [] + more == more;
      } else {
        assert HasTag(c, c[0]);
        assert (c + more)[1] == c[1] && (c + more)[2] == c[2];
        assert (c + more)[..|c|] == c && (c + more)[|c|..] == more;
      }
    }
  }

  lemma {:induction false} ConcatAppends(a: seq<Bytes>, b: seq<Bytes>)
    ensures Concat(a + b) == Concat(a) + Concat(b)
  {
    if a == [] {
      assert a + b == b && [] + Concat(b) == Concat(b);
    } else {
      assert (a + b)[1..] == a[1..] + b;
      ConcatAppends(a[1..], b);
      Assoc(a[0], Concat(a[1..]), Concat(b));
    }
  }

  lemma ConcatOne(c: Bytes)
    ensures Concat([c]) == c
  {
    assert [c][1..] == [] && c + [] == c;
  }

  lemma ConcatOfThree(a: Bytes, b: Bytes, c: Bytes)
    ensures Concat([a, b]) == a + b && Concat([a, b, c]) == a + b + c
  {
    ConcatOne(a);
    ConcatOne(b);
    ConcatOne(c);
    ConcatAppends([a], [b]);
    ConcatAppends([a, b], [c]);
    assert [a] + [b] == [a, b] && [a, b] + [c] == [a, b, c];
    hide Concat;
  }

  /** The files of an archive in load order. */
  function InOrder(archive: seq<Entry>): seq<Bytes> {
    [Held(archive, "Header.cap"), Held(archive, "Directory.cap"), Held(archive, "Import.cap")]
    + [Held(archive, "Applet.cap"), Held(archive, "Class.cap"), Held(archive, "Method.cap")]
    + [Held(archive, "StaticField.cap"), Held(archive, "Export.cap"), Held(archive, "ConstantPool.cap")]
    + [Held(archive, "RefLocation.cap"), Held(archive, "Descriptor.cap")]
  }

  const LOAD_ORDER: seq<Byte> := [1, 2, 4, 3, 6, 7, 8, 10, 5, 9, 11]

  /**
   Where each file holds the component that its name says, walking the load file by its size
   fields meets the components in the order of the specification, each as it was in its file.
   */
  lemma ComponentsInLoadOrder(archive: seq<Entry>)
    requires forall i :: 0 <= i < 11 ==> InOrder(archive)[i] == [] || HasTag(InOrder(archive)[i], LOAD_ORDER[i])
    ensures Walk(LoadFile(PartsOf(archive))) == NonEmpty(InOrder(archive))
  {
    var cs := InOrder(archive);
    WalkConcat(cs);
    LoadFileByNames(archive);
    LoadOrderJoins(
      Held(archive, "Header.cap"), Held(archive, "Directory.cap"), Held(archive, "Import.cap"),
      Held(archive, "Applet.cap"), Held(archive, "Class.cap"), Held(archive, "Method.cap"),
      Held(archive, "StaticField.cap"), Held(archive, "Export.cap"), Held(archive, "ConstantPool.cap"),
      Held(archive, "RefLocation.cap"), Held(archive, "Descriptor.cap"));
    hide Walk, Concat, NonEmpty, Held, LoadFile, PartsOf, HasTag;
  }

  lemma LoadOrderJoins(
    a: Bytes, b: Bytes, c: Bytes, d: Bytes, e: Bytes, f: Bytes, g: Bytes, h: Bytes, i: Bytes, j: Bytes, k: Bytes)
    ensures Concat([a, b, c] + [d, e, f] + [g, h, i] + [j, k]) == a + b + c + d + e + f + g + h + i + j + k
  {
    ConcatAppends([a, b, c] + [d, e, f] + [g, h, i], [j, k]);
    ConcatAppends([a, b, c] + [d, e, f], [g, h, i]);
    ConcatAppends([a, b, c], [d, e, f]);
    ConcatOfThree(a, b, c);
    ConcatOfThree(d, e, f);
    ConcatOfThree(g, h, i);
    ConcatOfThree(j, k, []);
    hide Concat;
    assert a + b + c + (d + e + f) == a + b + c + d + e + f;
    var abc := a + b + c + d + e + f;
    assert abc + (g + h + i) == abc + g + h + i;
    var all := abc + g + h + i;
    assert all + (j + k) == all + j + k;
  }
}
