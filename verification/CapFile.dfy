/**
 CAP files: `extract_cap_file` puts the components of a Java Card archive one after the other,
 and `read_executable_load_file_parameters_from_buffer` finds the package AID and the applet
 AIDs in the result. Component formats are those of sections 6.3 and 6.5 of the Java Card 2.2
 Virtual Machine Specification.
 */
module CapFile {
  import opened Options
  import opened Sequences
  import opened ByteStrings

  // ---------- archives ----------

  datatype Component = Header | Directory | Import | Applet | Class | Method
    | StaticField | Export | ConstantPool | RefLocation | Descriptor

  datatype Entry = Entry(name: string, contents: Bytes)

  predicate EndsWith(s: string, suffix: string) {
    |s| >= |suffix| && s[|s| - |suffix|..] == suffix
  }

  /** The component that a file of the archive holds, told by the end of its name. */
  function ComponentOf(name: string): Option<Component> {
    if EndsWith(name, "Header.cap") then Some(Header)
    else if EndsWith(name, "Applet.cap") then Some(Applet)
    else if EndsWith(name, "Class.cap") then Some(Class)
    else if EndsWith(name, "Import.cap") then Some(Import)
    else if EndsWith(name, "Directory.cap") then Some(Directory)
    else if EndsWith(name, "Method.cap") then Some(Method)
    else if EndsWith(name, "ConstantPool.cap") then Some(ConstantPool)
    else if EndsWith(name, "Descriptor.cap") then Some(Descriptor)
    else if EndsWith(name, "RefLocation.cap") then Some(RefLocation)
    else if EndsWith(name, "StaticField.cap") then Some(StaticField)
    else if EndsWith(name, "Export.cap") then Some(Export)
    else None
  }

  type Parts = map<Component, Bytes>

  function Part(parts: Parts, c: Component): Bytes {
    if c in parts then parts[c] else []
  }

  /** The buffers after the archive was read: of two files for one component the later stays. */
  function PartsOf(archive: seq<Entry>): Parts {
    if archive == [] then map[]
    else
      var last := archive[|archive| - 1];
      var before := PartsOf(archive[..|archive| - 1]);
      if ComponentOf(last.name).Some? then before[ComponentOf(last.name).value := last.contents] else before
  }

  /** The sizes of all component files. */
  function TotalSize(archive: seq<Entry>): nat {
    if archive == [] then 0
    else
      var last := archive[|archive| - 1];
      TotalSize(archive[..|archive| - 1]) + if ComponentOf(last.name).Some? then |last.contents| else 0
  }

  /** The load file: the components in the order the installer on the card expects. */
  function LoadFile(parts: Parts): Bytes {
    Part(parts, Header) + Part(parts, Directory) + Part(parts, Import) + Part(parts, Applet)
    + Part(parts, Class) + Part(parts, Method) + Part(parts, StaticField) + Part(parts, Export)
    + Part(parts, ConstantPool) + Part(parts, RefLocation) + Part(parts, Descriptor)
  }

  function Size(parts: Parts): nat {
    |Part(parts, Header)| + |Part(parts, Directory)| + |Part(parts, Import)| + |Part(parts, Applet)|
    + |Part(parts, Class)| + |Part(parts, Method)| + |Part(parts, StaticField)| + |Part(parts, Export)|
    + |Part(parts, ConstantPool)| + |Part(parts, RefLocation)| + |Part(parts, Descriptor)|
  }

  /** What stands behind the four components that are read. */
  function Rest(parts: Parts): Bytes {
    Part(parts, Class) + Part(parts, Method) + Part(parts, StaticField) + Part(parts, Export)
    + Part(parts, ConstantPool) + Part(parts, RefLocation) + Part(parts, Descriptor)
  }

  lemma LoadFileStarts(parts: Parts)
    ensures LoadFile(parts) == Part(parts, Header) + Part(parts, Directory) + Part(parts, Import)
                               + Part(parts, Applet) + Rest(parts)
  {
    hide Part;
  }

  predicate AtMostOnce(archive: seq<Entry>) {
    forall i, j :: 0 <= i < j < |archive| && ComponentOf(archive[i].name).Some?
                   ==> ComponentOf(archive[i].name) != ComponentOf(archive[j].name)
  }

  /** A component of the archive stands in the buffers, and nothing else does. */
  lemma {:induction false} PartsAreEntries(archive: seq<Entry>, c: Component)
    requires AtMostOnce(archive)
    ensures c in PartsOf(archive) <==> exists e :: e in archive && ComponentOf(e.name) == Some(c)
    ensures forall e :: e in archive && ComponentOf(e.name) == Some(c) ==> PartsOf(archive)[c] == e.contents
  {
    hide ComponentOf;
    if archive != [] {
      var n := |archive| - 1;
      PartsAreEntries(archive[..n], c);
      assert archive == archive[..n] + [archive[n]];
    }
  }

  /** The order of the files in the archive does not matter. */
  lemma ArchiveOrderIsFree(a: seq<Entry>, b: seq<Entry>)
    requires AtMostOnce(a) && AtMostOnce(b) && forall e :: e in a <==> e in b
    ensures LoadFile(PartsOf(a)) == LoadFile(PartsOf(b))
  {
    hide ComponentOf;
    forall c: Component ensures Part(PartsOf(a), c) == Part(PartsOf(b), c) {
      PartsAreEntries(a, c);
      PartsAreEntries(b, c);
    }
  }

  lemma OtherParts(parts: Parts, c: Component, contents: Bytes)
    ensures Part(parts[c := contents], c) == contents
    ensures forall d :: d != c ==> Part(parts[c := contents], d) == Part(parts, d)
  {
  }

  /** Replacing one component changes the size by the difference. */
  lemma SizeOfUpdate(parts: Parts, c: Component, contents: Bytes)
    ensures Size(parts[c := contents]) == Size(parts) - |Part(parts, c)| + |contents|
  {
    OtherParts(parts, c, contents);
    hide Part;
    match c {
      case Header =>
      case Directory =>
      case Import =>
      case Applet =>
      case Class =>
      case Method =>
      case StaticField =>
      case Export =>
      case ConstantPool =>
      case RefLocation =>
      case Descriptor =>
    }
  }

  lemma EmptySize()
    ensures Size(map[]) == 0
  {
  }

  lemma AbsentPart(parts: Parts, c: Component)
    requires c !in parts
    ensures Part(parts, c) == []
  {
  }

  /** The size that `extract_cap_file` asks for always suffices, and is exact without double components. */
  lemma {:induction false} LoadFileFits(archive: seq<Entry>)
    ensures Size(PartsOf(archive)) <= TotalSize(archive)
    ensures AtMostOnce(archive) ==> Size(PartsOf(archive)) == TotalSize(archive)
  {
    hide ComponentOf, Size, Part;
    if archive == [] {
      EmptySize();
    } else {
      var n := |archive| - 1;
      LoadFileFits(archive[..n]);
      var last := archive[n];
      if ComponentOf(last.name).Some? {
        var c := ComponentOf(last.name).value;
        SizeOfUpdate(PartsOf(archive[..n]), c, last.contents);
        if AtMostOnce(archive) {
          PartsAreEntries(archive[..n], c);
          AbsentPart(PartsOf(archive[..n]), c);
        }
      }
    }
  }

  // ---------- assembly ----------

  datatype Extraction = Extracted | SizeOnly | InsufficientBuffer

  /** The copy of one component, if the archive had it. */
  method Place(loadFileBuf: array<Byte>, total: nat, parts: Parts, c: Component) returns (next: nat)
    requires total + |Part(parts, c)| <= loadFileBuf.Length
    modifies loadFileBuf
    ensures next == total + |Part(parts, c)|
    ensures loadFileBuf[..next] == old(loadFileBuf[..total]) + Part(parts, c)
    ensures forall j :: next <= j < loadFileBuf.Length ==> loadFileBuf[j] == old(loadFileBuf[j])
  {
    next := total;
    if c in parts {
      CopyInto(loadFileBuf, total, parts[c]);
      next := total + |parts[c]|;
      assert forall j :: next <= j < loadFileBuf.Length ==> loadFileBuf[j] == loadFileBuf[next..][j - next];
    }
  }

  /** The order of the copies. */
  method Assemble(loadFileBuf: array<Byte>, parts: Parts) returns (total: nat)
    requires Size(parts) <= loadFileBuf.Length
    modifies loadFileBuf
    ensures total == Size(parts) && loadFileBuf[..total] == LoadFile(parts)
    ensures forall j :: total <= j < loadFileBuf.Length ==> loadFileBuf[j] == old(loadFileBuf[j])
  {
    hide Part;
    total := Place(loadFileBuf, 0, parts, Header);
    assert loadFileBuf[..total] == Part(parts, Header);
    total := Place(loadFileBuf, total, parts, Directory);
    total := Place(loadFileBuf, total, parts, Import);
    total := Place(loadFileBuf, total, parts, Applet);
    total := Place(loadFileBuf, total, parts, Class);
    total := Place(loadFileBuf, total, parts, Method);
    total := Place(loadFileBuf, total, parts, StaticField);
    total := Place(loadFileBuf, total, parts, Export);
    total := Place(loadFileBuf, total, parts, ConstantPool);
    total := Place(loadFileBuf, total, parts, RefLocation);
    total := Place(loadFileBuf, total, parts, Descriptor);
  }

  /**
   `extract_cap_file`, the archive being the sequence of its files. Without a buffer it only
   computes the size.
   */
  method ExtractCapFile(archive: seq<Entry>, loadFileBuf: array?<Byte>, loadFileBufSize: nat)
    returns (status: Extraction, size: nat)
    requires loadFileBuf != null ==> loadFileBufSize <= loadFileBuf.Length
    modifies loadFileBuf
    ensures status == if loadFileBuf == null then SizeOnly
                      else if loadFileBufSize < TotalSize(archive) then InsufficientBuffer
                      else Extracted
    ensures size == if loadFileBuf == null then TotalSize(archive) else loadFileBufSize
    ensures status == Extracted ==>
              var file := LoadFile(PartsOf(archive));
              |file| <= size && loadFileBuf[..|file|] == file
              && forall j :: |file| <= j < loadFileBuf.Length ==> loadFileBuf[j] == old(loadFileBuf[j])
    ensures loadFileBuf != null && status == InsufficientBuffer ==> unchanged(loadFileBuf)
  {
    hide LoadFile, Size;
    var parts: Parts := map[];
    var totalSize := 0;
    for i := 0 to |archive|
      invariant parts == PartsOf(archive[..i]) && totalSize == TotalSize(archive[..i])
      invariant loadFileBuf != null ==> unchanged(loadFileBuf)
    {
      TakeStep(archive, i);
      var e := archive[i];
      var c := ComponentOf(e.name);
      if c.Some? {
        totalSize := totalSize + |e.contents|;
        parts := parts[c.value := e.contents];
      }
    }
    assert archive[..|archive|] == archive;
    if loadFileBuf == null {
      return SizeOnly, totalSize;
    }
    if loadFileBufSize < totalSize {
      return InsufficientBuffer, loadFileBufSize;
    }
    LoadFileFits(archive);
    totalSize := Assemble(loadFileBuf, parts);
    return Extracted, loadFileBufSize;
  }

  // ---------- the reader as a function ----------

  /** The room for AIDs in `OPGP_LOAD_FILE_PARAMETERS`. */
  const MAX_APPLETS: nat := 32

  datatype Parameters = Parameters(loadFileSize: nat, loadFileAID: Bytes, appletAIDs: seq<Bytes>)

  /** Overrun stands for the store behind the 32 places, whose effect C leaves undefined. */
  datatype Reading<+T> = Read(value: T) | InvalidLoadFile | Overrun

  /** The AID list of the Applet component from applet i, whose length byte is at offset. */
  function ReadApplets(b: Bytes, offset: nat, i: nat, count: nat): Reading<seq<Bytes>>
    decreases count - i
  {
    if i >= count then Read([])
    else if |b| < offset + 1 then InvalidLoadFile
    else if i >= MAX_APPLETS then Overrun
    else
      var n := b[offset];
      if n < 5 || n > 16 || |b| < offset + 1 + n + 1 then InvalidLoadFile
      else Before([b[offset + 1..offset + 1 + n]], ReadApplets(b, offset + 1 + n + 2, i + 1, count))
  }

  function Before(aids: seq<Bytes>, rest: Reading<seq<Bytes>>): Reading<seq<Bytes>> {
    if rest.Read? then Read(aids + rest.value) else rest
  }

  lemma BeforeParts(a: seq<Bytes>, b: seq<Bytes>, rest: Reading<seq<Bytes>>)
    ensures Before([], rest) == rest
    ensures Before(a, Before(b, rest)) == Before(a + b, rest)
    ensures Before(a, InvalidLoadFile) == InvalidLoadFile && Before(a, Overrun) == Overrun
    ensures Before(a, Read([])) == Read(a)
  {
    assert a + [] == a;
    if rest.Read? {
      assert [] + rest.value == rest.value;
      Assoc(a, b, rest.value);
    }
  }

  /** Behind the component that starts at o, where its size field can be read. */
  function Next(b: Bytes, o: nat): Option<nat> {
    if |b| < o + 3 then None else Some(o + GetShort(b, o + 1) + 3)
  }

  function Next3(b: Bytes): Option<nat> {
    if Next(b, 0).None? || Next(b, Next(b, 0).value).None? then None
    else Next(b, Next(b, Next(b, 0).value).value)
  }

  predicate HasPackageAid(b: Bytes) {
    |b| >= 13 && 5 <= b[12] <= 16 && |b| >= 13 + b[12] + 1
  }

  function ReadLoadFile(b: Bytes): Reading<Parameters> {
    if !HasPackageAid(b) || Next3(b).None? || |b| < Next3(b).value + 4 then InvalidLoadFile
    else
      var o := Next3(b).value;
      var applets := ReadApplets(b, o + 4, 0, b[o + 3]);
      if applets.Read? then Read(Parameters(|b|, b[13..13 + b[12]], applets.value))
      else if applets.Overrun? then Overrun
      else InvalidLoadFile
  }

  // ---------- the reader ----------

  /** The offset of the component behind the one at componentOffset. */
  method SkipComponent(b: array<Byte>, componentOffset: nat) returns (next: Option<nat>)
    ensures next == Next(b[..], componentOffset)
  {
    var offset := componentOffset;
    offset := offset + 1;
    if b.Length < offset + 2 {
      return None;
    }
    var componentSize := GetShort(b[..], offset);
    next := Some(componentOffset + componentSize + 3);
  }

  /** The loop over the applets. Every read is below the size of the buffer. */
  method ReadAppletList(b: array<Byte>, start: nat, appletCount: Byte) returns (r: Reading<seq<Bytes>>)
    ensures r == ReadApplets(b[..], start, 0, appletCount)
  {
    hide Before;
    var appletAIDs := new Bytes[MAX_APPLETS](_ => []);
    var offset: nat := start;
    ghost var all := b[..];
    var i: nat := 0;
    BeforeParts([], [], ReadApplets(all, offset, i, appletCount));
    while i < appletCount
      invariant i <= appletCount && i <= MAX_APPLETS && all == b[..]
      invariant ReadApplets(all, start, 0, appletCount)
                == Before(appletAIDs[..i], ReadApplets(all, offset, i, appletCount))
    {
      BeforeParts(appletAIDs[..i], [], InvalidLoadFile);
      if b.Length < offset + 1 {
        return InvalidLoadFile;
      }
      if i == MAX_APPLETS {
        return Overrun;
      }
      var n := b[offset];
      offset := offset + 1;
      if n < 5 || n > 16 {
        return InvalidLoadFile;
      }
      if b.Length < offset + n + 1 {
        return InvalidLoadFile;
      }
      ghost var listed := appletAIDs[..i];
      appletAIDs[i] := b[offset..offset + n];
      assert appletAIDs[..i + 1] == listed + [all[offset..offset + n]];
      BeforeParts(listed, [all[offset..offset + n]], ReadApplets(all, offset + n + 2, i + 1, appletCount));
      offset := offset + n;
      offset := offset + 2;
      i := i + 1;
    }
    BeforeParts(appletAIDs[..i], [], Read([]));
    r := Read(appletAIDs[..i]);
  }

  /**
   `read_executable_load_file_parameters_from_buffer` on a buffer of exactly its size, so that
   no read passes it.
   */
  method ReadParameters(loadFileBuf: array<Byte>) returns (r: Reading<Parameters>)
    ensures r == ReadLoadFile(loadFileBuf[..])
  {
    var b := loadFileBuf;
    var directory := SkipComponent(b, 0);
    if directory.None? {
      return InvalidLoadFile;
    }
    var offset := 1 + 2 + 4 + 1 + 1 + 1 + 1 + 1;
    if b.Length < offset + 1 {
      return InvalidLoadFile;
    }
    var packageAIDLength := b[offset];
    offset := offset + 1;
    if packageAIDLength < 5 || packageAIDLength > 16 {
      return InvalidLoadFile;
    }
    if b.Length < offset + packageAIDLength + 1 {
      return InvalidLoadFile;
    }
    var packageAID := b[offset..offset + packageAIDLength];
    assert packageAID == b[..][13..13 + b[12]];
    var imports := SkipComponent(b, directory.value);
    if imports.None? {
      return InvalidLoadFile;
    }
    var applet := SkipComponent(b, imports.value);
    if applet.None? || b.Length < applet.value + 1 + 2 {
      return InvalidLoadFile;
    }
    offset := applet.value + 1 + 2;
    if b.Length < offset + 1 {
      return InvalidLoadFile;
    }
    var appletCount := b[offset];
    var applets := ReadAppletList(b, offset + 1, appletCount);
    match applets {
      case Read(aids) => r := Read(Parameters(b.Length, packageAID, aids));
      case InvalidLoadFile => r := InvalidLoadFile;
      case Overrun => r := Overrun;
    }
  }

  // ---------- what a reading means ----------

  /** The AIDs stand at offset o as entries of an Applet component; the last may lack its method offset. */
  predicate ListsApplets(b: Bytes, o: nat, aids: seq<Bytes>)
    decreases |aids|
  {
    aids == [] ||
    (var a := aids[0];
     && 5 <= |a| <= 16 && o + |a| + 2 <= |b| && b[o..o + 1 + |a|] == [|a|] + a
     && ListsApplets(b, o + |a| + 3, aids[1..]))
  }

  /** The buffer describes these parameters. */
  predicate Describes(b: Bytes, p: Parameters) {
    && p.loadFileSize == |b| && 5 <= |p.loadFileAID| <= 16
    && |b| >= 14 + |p.loadFileAID| && b[12..13 + |p.loadFileAID|] == [|p.loadFileAID|] + p.loadFileAID
    && Next3(b).Some? && |b| >= Next3(b).value + 4
    && |p.appletAIDs| == b[Next3(b).value + 3] && |p.appletAIDs| <= MAX_APPLETS
    && ListsApplets(b, Next3(b).value + 4, p.appletAIDs)
  }

  lemma {:induction false} AppletsReadIff(b: Bytes, o: nat, i: nat, count: nat, aids: seq<Bytes>)
    requires i <= count
    ensures ReadApplets(b, o, i, count) == Read(aids)
            <==> |aids| == count - i && (aids == [] || count <= MAX_APPLETS) && ListsApplets(b, o, aids)
    decreases count - i
  {
    if i < count {
      if aids == [] {
        NotEmpty(b, o, i, count);
      } else {
        var n := |aids[0]|;
        AppletsReadIff(b, o + n + 3, i + 1, count, aids[1..]);
        AppletStep(b, o, i, count, aids);
      }
    }
  }

  lemma NotEmpty(b: Bytes, o: nat, i: nat, count: nat)
    requires i < count
    ensures ReadApplets(b, o, i, count) != Read([])
  {
  }

  /** One entry on both sides. */
  lemma AppletStep(b: Bytes, o: nat, i: nat, count: nat, aids: seq<Bytes>)
    requires i < count && aids != []
    ensures var a := aids[0];
            ReadApplets(b, o, i, count) == Read(aids)
            <==> i < MAX_APPLETS && 5 <= |a| <= 16 && o + |a| + 2 <= |b| && b[o..o + 1 + |a|] == [|a|] + a
                 && ReadApplets(b, o + |a| + 3, i + 1, count) == Read(aids[1..])
  {
    var a := aids[0];
    if ReadApplets(b, o, i, count) == Read(aids) {
      assert a == b[o + 1..o + 1 + b[o]];
      assert b[o..o + 1 + |a|] == [|a|] + a;
    }
    if && 5 <= |a| <= 16 && o + |a| + 2 <= |b| && b[o..o + 1 + |a|] == [|a|] + a
       && ReadApplets(b, o + |a| + 3, i + 1, count) == Read(aids[1..]) && i < MAX_APPLETS {
      var s := b[o..o + 1 + |a|];
      assert s[0] == b[o] && s[1..] == b[o + 1..o + 1 + b[o]];
      assert aids == [a] + aids[1..];
    }
  }

  /** The package AID and its length byte, read and described. */
  lemma PackageAidIff(b: Bytes, a: Bytes)
    ensures HasPackageAid(b) && b[13..13 + b[12]] == a
            <==> 5 <= |a| <= 16 && |b| >= 14 + |a| && b[12..13 + |a|] == [|a|] + a
  {
    if 14 + |a| <= |b| {
      var s := b[12..13 + |a|];
      assert s[0] == b[12] && s[1..] == b[13..13 + |a|];
      if b[12] == |a| && b[13..13 + |a|] == a {
        assert s == [s[0]] + s[1..];
      }
    }
  }

  /** The reader succeeds exactly on the buffers that describe the parameters it returns. */
  lemma ReadIff(b: Bytes, p: Parameters)
    ensures ReadLoadFile(b) == Read(p) <==> Describes(b, p)
  {
    hide Next3, HasPackageAid, ReadApplets, ListsApplets;
    PackageAidIff(b, p.loadFileAID);
    if Next3(b).Some? && |b| >= Next3(b).value + 4 {
      var o := Next3(b).value;
      AppletsReadIff(b, o + 4, 0, b[o + 3], p.appletAIDs);
    }
  }

  // ---------- well-formed components ----------

  type Aid = a: Bytes | 5 <= |a| <= 16 witness [0, 0, 0, 0, 0]

  /** A component: tag, size, contents. */
  function Framed(tag: Byte, info: Bytes): Bytes
    requires |info| < 0x1_0000
  {
    [tag, |info| / 256, |info| % 256] + info
  }

  /** Header: nine bytes of magic, versions and flags, the package AID, and what follows it. */
  datatype HeaderInfo = HeaderInfo(versions: Bytes, aid: Aid, more: Bytes)

  datatype AppletInfo = AppletInfo(aid: Aid, high: Byte, low: Byte)

  function HeaderBytes(h: HeaderInfo): Bytes {
    h.versions + [|h.aid|] + h.aid + h.more
  }

  /** One entry of the Applet component. */
  function AppletEntry(a: AppletInfo): Bytes {
    [|a.aid|] + a.aid + [a.high, a.low]
  }

  function AppletBytes(l: seq<AppletInfo>): Bytes {
    if l == [] then [] else AppletEntry(l[0]) + AppletBytes(l[1..])
  }

  function AppletAids(l: seq<AppletInfo>): seq<Bytes> {
    if l == [] then [] else [l[0].aid] + AppletAids(l[1..])
  }

  /** A CAP file with these contents, whatever its other components are. */
  ghost predicate WellFormed(parts: Parts, h: HeaderInfo, l: seq<AppletInfo>) {
    && |h.versions| == 9 && |l| < 256
    && |HeaderBytes(h)| < 0x1_0000 && |AppletBytes(l)| < 0xFFFF
    && Part(parts, Header) == Framed(1, HeaderBytes(h))
    && Part(parts, Applet) == Framed(3, [|l|] + AppletBytes(l))
    && (exists d: Bytes :: |d| < 0x1_0000 && Part(parts, Directory) == Framed(2, d))
    && (exists m: Bytes :: |m| < 0x1_0000 && Part(parts, Import) == Framed(4, m))
  }

  lemma NextOfFramed(pre: Bytes, tag: Byte, info: Bytes, post: Bytes)
    requires |info| < 0x1_0000
    ensures Next(pre + Framed(tag, info) + post, |pre|) == Some(|pre| + |Framed(tag, info)|)
  {
    var b := pre + Framed(tag, info) + post;
    assert b[|pre| + 1] == |info| / 256 && b[|pre| + 2] == |info| % 256;
  }

  lemma EntryFirst(pre: Bytes, a: AppletInfo, more: Bytes)
    ensures var b := pre + AppletEntry(a) + more;
            b[|pre|] == |a.aid| && b[|pre|..|pre| + 1 + |a.aid|] == [|a.aid|] + a.aid
  {
    var b := pre + AppletEntry(a) + more;
    assert b == pre + ([|a.aid|] + a.aid) + ([a.high, a.low] + more);
  }

  lemma {:induction false} AppletBytesList(pre: Bytes, l: seq<AppletInfo>, post: Bytes)
    ensures ListsApplets(pre + AppletBytes(l) + post, |pre|, AppletAids(l))
    ensures |AppletAids(l)| == |l|
    decreases |l|
  {
    if l != [] {
      var e := AppletEntry(l[0]);
      assert |e| == |l[0].aid| + 3;
      EntryFirst(pre, l[0], AppletBytes(l[1..]) + post);
      AppletBytesList(pre + e, l[1..], post);
      assert AppletAids(l)[0] == l[0].aid && AppletAids(l)[1..] == AppletAids(l[1..]);
      Regroup(pre, e, AppletBytes(l[1..]), post);
      Assoc(pre, e, AppletBytes(l[1..]));
      Assoc(pre + e, AppletBytes(l[1..]), post);
      hide AppletEntry, AppletAids;
    }
  }

  /** A count above 32 runs over the AID array. */
  lemma {:induction false} AppletBytesOverrun(pre: Bytes, l: seq<AppletInfo>, post: Bytes, i: nat, count: nat)
    requires i + |l| == count && count > MAX_APPLETS >= i
    ensures ReadApplets(pre + AppletBytes(l) + post, |pre|, i, count) == Overrun
    decreases |l|
  {
    var one := AppletEntry(l[0]);
    var b := pre + AppletBytes(l) + post;
    EntryFirst(pre, l[0], AppletBytes(l[1..]) + post);
    assert b == pre + one + (AppletBytes(l[1..]) + post) == pre + one + AppletBytes(l[1..]) + post;
    if i < MAX_APPLETS {
      AppletBytesOverrun(pre + one, l[1..], post, i + 1, count);
    }
  }

  /** The components of a well-formed CAP file are found where they were put. */
  lemma ComponentsFound(header: Bytes, d: Bytes, m: Bytes, applet: Bytes, rest: Bytes)
    requires |header| < 0x1_0000 && |d| < 0x1_0000 && |m| < 0x1_0000
    ensures Next3(Framed(1, header) + Framed(2, d) + Framed(4, m) + applet + rest)
            == Some(|Framed(1, header) + Framed(2, d) + Framed(4, m)|)
  {
    var f, g, k := Framed(1, header), Framed(2, d), Framed(4, m);
    var b := f + g + k + applet + rest;
    NextOfFramed([], 1, header, g + k + applet + rest);
    assert b == [] + f + (g + k + applet + rest);
    NextOfFramed(f, 2, d, k + applet + rest);
    assert b == f + g + (k + applet + rest);
    NextOfFramed(f + g, 4, m, applet + rest);
    assert b == f + g + k + (applet + rest);
  }

  /** The package AID is found in the Header component. */
  lemma HeaderFound(h: HeaderInfo, rest: Bytes)
    requires |h.versions| == 9 && |HeaderBytes(h)| < 0x1_0000 && rest != []
    ensures var b := Framed(1, HeaderBytes(h)) + rest;
            HasPackageAid(b) && b[12] == |h.aid| && b[12..13 + |h.aid|] == [|h.aid|] + h.aid
            && b[13..13 + |h.aid|] == h.aid
  {
    var b := Framed(1, HeaderBytes(h)) + rest;
    var pre := [1, |HeaderBytes(h)| / 256, |HeaderBytes(h)| % 256] + h.versions;
    assert b == pre + ([|h.aid|] + h.aid) + (h.more + rest);
    assert |pre| == 12 && |b| >= 14 + |h.aid|;
    assert b[12..13 + |h.aid|] == [|h.aid|] + h.aid;
    assert b[12] == b[12..13 + |h.aid|][0];
    assert b[13..13 + |h.aid|] == b[12..13 + |h.aid|][1..];
  }

  /**
   Reading back what was assembled gives the package AID and the applet AIDs, exactly as long
   as there is room for the applets.
   */
  lemma AssembledFileReadsBack(archive: seq<Entry>, h: HeaderInfo, l: seq<AppletInfo>)
    requires WellFormed(PartsOf(archive), h, l)
    ensures var file := LoadFile(PartsOf(archive));
            ReadLoadFile(file)
            == if |l| <= MAX_APPLETS then Read(Parameters(|file|, h.aid, AppletAids(l))) else Overrun
  {
    hide PartsOf, Part, LoadFile, Rest, Framed, Next3, ReadLoadFile, AppletBytes, HeaderBytes, AppletAids, ReadApplets;
    var parts := PartsOf(archive);
    var d: Bytes :| |d| < 0x1_0000 && Part(parts, Directory) == Framed(2, d);
    var m: Bytes :| |m| < 0x1_0000 && Part(parts, Import) == Framed(4, m);
    LoadFileStarts(parts);
    FileReadsBack(h, d, m, l, Rest(parts));
  }

  /** The applet list is read as far as there is room. */
  lemma AppletsFound(front: Bytes, l: seq<AppletInfo>, post: Bytes)
    requires |l| < 256 && |AppletBytes(l)| < 0xFFFF
    ensures var b := front + Framed(3, [|l|] + AppletBytes(l)) + post;
            && |b| >= |front| + 4 && b[|front| + 3] == |l|
            && ReadApplets(b, |front| + 4, 0, |l|)
               == if |l| <= MAX_APPLETS then Read(AppletAids(l)) else Overrun
  {
    hide ReadApplets, AppletBytes, AppletAids;
    var size := 1 + |AppletBytes(l)|;
    var pre := front + [3, size / 256, size % 256, |l|];
    assert front + Framed(3, [|l|] + AppletBytes(l)) + post == pre + AppletBytes(l) + post;
    if |l| <= MAX_APPLETS {
      AppletBytesList(pre, l, post);
      AppletsReadIff(pre + AppletBytes(l) + post, |pre|, 0, |l|, AppletAids(l));
    } else {
      AppletBytesOverrun(pre, l, post, 0, |l|);
    }
  }

  /** The parts of a reading. */
  lemma ReadingOf(b: Bytes, aid: Bytes, o: nat, applets: Reading<seq<Bytes>>)
    requires HasPackageAid(b) && b[13..13 + b[12]] == aid
    requires Next3(b) == Some(o) && |b| >= o + 4 && ReadApplets(b, o + 4, 0, b[o + 3]) == applets
    ensures ReadLoadFile(b) == match applets
            case Read(aids) => Read(Parameters(|b|, aid, aids))
            case InvalidLoadFile => InvalidLoadFile
            case Overrun => Overrun
  {
    hide HasPackageAid, Next3, ReadApplets;
  }

  lemma FileReadsBack(h: HeaderInfo, d: Bytes, m: Bytes, l: seq<AppletInfo>, rest: Bytes)
    requires |h.versions| == 9 && |l| < 256 && |d| < 0x1_0000 && |m| < 0x1_0000
    requires |HeaderBytes(h)| < 0x1_0000 && |AppletBytes(l)| < 0xFFFF
    ensures var file := Framed(1, HeaderBytes(h)) + Framed(2, d) + Framed(4, m)
                        + Framed(3, [|l|] + AppletBytes(l)) + rest;
            ReadLoadFile(file)
            == if |l| <= MAX_APPLETS then Read(Parameters(|file|, h.aid, AppletAids(l))) else Overrun
  {
    hide Framed, ReadLoadFile, Next3, ReadApplets, AppletBytes, HeaderBytes, AppletAids, HasPackageAid;
    var f, g, k := Framed(1, HeaderBytes(h)), Framed(2, d), Framed(4, m);
    var a := Framed(3, [|l|] + AppletBytes(l));
    var b := f + g + k + a + rest;
    ComponentsFound(HeaderBytes(h), d, m, a, rest);
    AppletsFound(f + g + k, l, rest);
    assert g + k + a + rest != [] by {
      assert |b| >= |f + g + k| + 4;
    }
    HeaderFound(h, g + k + a + rest);
    assert b == f + (g + k + a + rest);
    ReadingOf(b, h.aid, |f + g + k|, ReadApplets(b, |f + g + k| + 4, 0, |l|));
  }

  /**
   A library package has no Applet component, but the reader expects one: it takes the next
   component for it, and reports no applets exactly when that one's contents start with 0.
   */
  lemma LibraryPackageReads(h: HeaderInfo, d: Bytes, m: Bytes, rest: Bytes)
    requires |h.versions| == 9 && |HeaderBytes(h)| < 0x1_0000 && |d| < 0x1_0000 && |m| < 0x1_0000
    ensures var file := Framed(1, HeaderBytes(h)) + Framed(2, d) + Framed(4, m) + rest;
            ReadLoadFile(file) == Read(Parameters(|file|, h.aid, []))
            <==> |rest| >= 4 && rest[3] == 0
  {
    hide Next3, HeaderBytes, HasPackageAid, ReadApplets;
    var f, g, k := Framed(1, HeaderBytes(h)), Framed(2, d), Framed(4, m);
    var b := f + g + k + rest;
    assert f + g + k + [] + rest == b == f + (g + k + rest);
    ComponentsFound(HeaderBytes(h), d, m, [], rest);
    HeaderFound(h, g + k + rest);
    if |rest| >= 4 {
      var o := |f + g + k|;
      assert b[o + 3] == rest[3];
      AppletsReadIff(b, o + 4, 0, b[o + 3], []);
    }
  }
}
