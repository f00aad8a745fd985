/**
 `JSONWriter` and `JSONStringer`: the mode, the comma flag and the scope stack, updated call
 by call, with the tree under construction as ghost state.
 */
module JsonWriter {
  import opened Options
  import opened CodeUnits
  import opened Sequences
  import opened JsonValue
  import opened JsonParser
  import opened JsonStrings
  import opened JsonLayout
  import opened JsonPrinter
  import opened JsonRoundTrip
  import opened JsonCalls

  // ---------- the text of a run in progress ----------

  function NodeText(n: Node): Text {
    Compact(Flat(n))
  }

  function Comma(b: bool): Text {
    if b then [COMMA] else []
  }

  function ItemsText(items: seq<Node>): Text {
    if items == [] then []
    else
      var k := |items| - 1;
      ItemsText(items[..k]) + Comma(k > 0) + NodeText(items[k])
  }

  function KeyText(comma: bool, key: Text): Text {
    Comma(comma) + Quote(key) + [COLON]
  }

  function MembersText(members: seq<NodeMember>): Text {
    if members == [] then []
    else
      var k := |members| - 1;
      MembersText(members[..k]) + KeyText(k > 0, members[k].key) + NodeText(members[k].node)
  }

  function FrameText(f: Frame): Text {
    match f
    case InArray(items) => [OPEN_BRACKET] + ItemsText(items)
    case InObject(members, pending) =>
      [OPEN_BRACE] + MembersText(members)
      + (if pending.Some? then KeyText(members != [], pending.value) else [])
  }

  /** What has to be written before the next value, if the innermost frame takes one. */
  function CommaBefore(frames: Frames): Text {
    Comma(frames.Inside? && frames.top.InArray? && frames.top.items != [])
  }

  function FramesText(frames: Frames): Text {
    match frames
    case Nothing => []
    case Inside(f, below) => FramesText(below) + CommaBefore(below) + FrameText(f)
  }

  function TextSoFar(p: Progress): Text {
    match p
    case Fresh => []
    case Open(frames) => FramesText(frames)
    case Done(n) => NodeText(n)
  }

  lemma {:induction false} ItemsTextIsPrinted(items: seq<Node>, i: nat)
    requires i <= |items|
    ensures ItemsText(items[..i]) + ItemsFrom(FlatItems(items), i, 0, 0) == ItemsFrom(FlatItems(items), 0, 0, 0)
  {
    hide Print, Pretty, Lead, JsonPrinter.End;
    if i > 0 {
      var ts := FlatItems(items);
      ItemsTextIsPrinted(items, i - 1);
      assert items[..i][..i - 1] == items[..i - 1];
      CompactLead(i > 1);
      Regroup(ItemsText(items[..i - 1]), Comma(i > 1), NodeText(items[i - 1]), ItemsFrom(ts, i, 0, 0));
      assert Print(Pretty(ts[i - 1], 0, 0)) == NodeText(items[i - 1]) by { CompactIs(ts[i - 1]); }
    }
  }

  lemma CompactIs(t: Tree)
    ensures Compact(t) == Print(Pretty(t, 0, 0))
  {
  }

  lemma CompactLead(comma: bool)
    ensures Lead(comma, 0, 0) == Comma(comma) && JsonPrinter.End(0, 0, CLOSE_BRACKET) == [CLOSE_BRACKET]
    ensures JsonPrinter.End(0, 0, CLOSE_BRACE) == [CLOSE_BRACE]
  {
    assert Spaces(0) == [];
  }

  lemma {:induction false} MembersTextIsPrinted(members: seq<NodeMember>, i: nat)
    requires i <= |members|
    ensures MembersText(members[..i]) + MembersFrom(FlatMembers(members), i, 0, 0)
         == MembersFrom(FlatMembers(members), 0, 0, 0)
  {
    hide Print, Pretty, Lead, JsonPrinter.End;
    if i > 0 {
      var ms := FlatMembers(members);
      MembersTextIsPrinted(members, i - 1);
      assert members[..i][..i - 1] == members[..i - 1];
      CompactLead(i > 1);
      CompactPair(i > 1, members[i - 1]);
      hide PairText, KeyText, NodeText;
      var m := members[i - 1];
      Regroup(MembersText(members[..i - 1]), Comma(i > 1), PairText(ms[i - 1], 0, 0), MembersFrom(ms, i, 0, 0));
      Assoc(MembersText(members[..i - 1]), Comma(i > 1), PairText(ms[i - 1], 0, 0));
      Assoc(MembersText(members[..i - 1]), KeyText(i > 1, m.key), NodeText(m.node));
    }
  }

  lemma CompactPair(comma: bool, m: NodeMember)
    ensures Comma(comma) + PairText(Member(m.key, Flat(m.node)), 0, 0) == KeyText(comma, m.key) + NodeText(m.node)
  {
    var v := NodeText(m.node);
    assert AfterColon(0) == [];
    hide NodeText, Quote;
    assert Quote(m.key) + [COLON] + [] + v == Quote(m.key) + [COLON] + v;
  }

  /** The text between the brackets of a finished array or object is what `write` prints there. */
  lemma ArrayNodeText(items: seq<Node>)
    ensures NodeText(ArrNode(items)) == FrameText(InArray(items)) + [CLOSE_BRACKET]
  {
    var ts := FlatItems(items);
    ArrayText(ts, 0, 0);
    ItemsTextIsPrinted(items, |items|);
    assert items[..|items|] == items;
    CompactLead(false);
    hide Print, Pretty, ItemsFrom;
    Assoc([OPEN_BRACKET], ItemsText(items), [CLOSE_BRACKET]);
    CompactIs(ArrTree(ts));
    if |items| == 1 {
      OneItemText(items);
    } else if items == [] {
      assert ItemsText(items) == [];
    }
  }

  lemma OneItemText(items: seq<Node>)
    requires |items| == 1
    ensures ItemsText(items) == Print(Pretty(FlatItems(items)[0], 0, 0))
  {
    assert items[..0] == [];
    hide Print, Pretty;
    assert ItemsText([]) + Comma(false) == [];
  }

  lemma ObjectNodeText(members: seq<NodeMember>)
    ensures NodeText(ObjNode(members)) == FrameText(InObject(members, None)) + [CLOSE_BRACE]
  {
    var ms := FlatMembers(members);
    ObjectText(ms, 0, 0);
    MembersTextIsPrinted(members, |members|);
    assert members[..|members|] == members;
    CompactLead(false);
    hide Print, Pretty, MembersFrom, PairText;
    assert FrameText(InObject(members, None)) == [OPEN_BRACE] + MembersText(members);
    Assoc([OPEN_BRACE], MembersText(members), [CLOSE_BRACE]);
    CompactIs(ObjTree(ms));
    if |members| == 1 {
      OneMemberText(members);
    } else if members == [] {
      assert MembersText(members) == [];
    }
  }

  lemma OneMemberText(members: seq<NodeMember>)
    requires |members| == 1
    ensures MembersText(members) == PairText(FlatMembers(members)[0], 0, 0)
  {
    var m := members[0];
    CompactPair(false, m);
    hide PairText, KeyText, NodeText;
    assert members[..0] == [] && MembersText(members[..0]) == [];
    var key, value, pair := KeyText(false, m.key), NodeText(m.node), PairText(FlatMembers(members)[0], 0, 0);
    assert MembersText(members) == [] + key + value;
    assert [] + key == key;
    assert [] + pair == pair;
  }

  lemma PlaceText(frames: Frames, n: Node)
    requires frames.Inside? ==> TakesValue(frames.top)
    ensures TextSoFar(Place(frames, n)) == FramesText(frames) + CommaBefore(frames) + NodeText(n)
  {
    match frames
    case Nothing =>
      assert [] + Comma(false) + NodeText(n) == NodeText(n);
    case Inside(f, below) =>
      var before := FramesText(below) + CommaBefore(below);
      var comma := CommaBefore(frames);
      ExtendText(f, n);
      hide FrameText, NodeText, Extend, CommaBefore;
      Assoc(before, FrameText(f), comma);
      Assoc(before, FrameText(f) + comma, NodeText(n));
  }

  lemma ExtendText(f: Frame, n: Node)
    requires TakesValue(f)
    ensures FrameText(Extend(f, n)) == FrameText(f) + Comma(f.InArray? && f.items != []) + NodeText(n)
  {
    hide NodeText, KeyText;
    match f
    case InArray(items) =>
      assert (items + [n])[..|items|] == items;
      assert [OPEN_BRACKET] + (ItemsText(items) + Comma(items != []) + NodeText(n))
          == [OPEN_BRACKET] + ItemsText(items) + Comma(items != []) + NodeText(n);
    case InObject(members, pending) =>
      var m := NodeMember(pending.value, n);
      assert (members + [m])[..|members|] == members;
      var key := KeyText(members != [], m.key);
      assert [OPEN_BRACE] + (MembersText(members) + key + NodeText(n)) + []
          == [OPEN_BRACE] + MembersText(members) + key + Comma(false) + NodeText(n);
  }

  lemma EndedText(f: Frame, below: Frames)
    requires f.InObject? ==> f.pending.None?
    requires below.Inside? ==> TakesValue(below.top)
    ensures TextSoFar(Place(below, Ended(f)))
         == FramesText(Inside(f, below)) + [if f.InArray? then CLOSE_BRACKET else CLOSE_BRACE]
  {
    if f.InArray? {
      ArrayNodeText(f.items);
    } else {
      ObjectNodeText(f.members);
    }
    PlaceText(below, Ended(f));
    hide NodeText, FrameText;
    Assoc(FramesText(below) + CommaBefore(below), FrameText(f), [if f.InArray? then CLOSE_BRACKET else CLOSE_BRACE]);
  }

  // ---------- the state of the writer at a point of a run ----------

  /** An entry of the scope stack: null for an array, the keys put so far for an object. */
  datatype Scope = ArrayScope | ObjectScope(keys: set<Text>)

  function KeysOf(members: seq<NodeMember>): set<Text> {
    set i | 0 <= i < |members| :: members[i].key
  }

  function ScopeOf(f: Frame): Scope {
    match f
    case InArray(_) => ArrayScope
    case InObject(members, pending) =>
      ObjectScope(KeysOf(members) + if pending.Some? then {pending.value} else {})
  }

  function ScopesOf(frames: Frames): seq<Scope> {
    match frames
    case Nothing => []
    case Inside(f, below) => ScopesOf(below) + [ScopeOf(f)]
  }

  function FramesOf(p: Progress): Frames {
    if p.Open? then p.frames else Nothing
  }

  function ModeOf(p: Progress): char {
    match p
    case Fresh => 'i'
    case Done(_) => 'd'
    case Open(Nothing) => 'd'
    case Open(Inside(InArray(_), _)) => 'a'
    case Open(Inside(InObject(_, pending), _)) => if pending.Some? then 'o' else 'k'
  }

  function CommaOf(p: Progress): bool {
    match p
    case Fresh => false
    case Done(_) => true
    case Open(Nothing) => true
    case Open(Inside(InArray(items), _)) => items != []
    case Open(Inside(InObject(members, pending), _)) => pending.None? && members != []
  }

  /** The fields of the writer at a point of a run. */
  ghost predicate Fits(p: Progress, mode: char, comma: bool, scopes: seq<Scope>, out: Text) {
    && mode == ModeOf(p)
    && comma == CommaOf(p)
    && scopes == ScopesOf(FramesOf(p))
    && out == TextSoFar(p)
  }

  // ---------- the writer ----------

  class JSONWriter {
    var comma: bool
    var mode: char
    const stack: array<Scope>
    var top: int
    var out: Text
    ghost var progress: Progress

    /** The fields say where the run is, and the text is that of the tree built so far. */
    ghost predicate Valid()
      reads this, stack
    {
      && Sound(progress)
      && stack.Length == MAX_DEPTH
      && 0 <= top <= MAX_DEPTH
      && Fits(progress, mode, comma, stack[..top], out)
    }

    constructor ()
      ensures Valid() && progress == Fresh && fresh(stack)
    {
      comma := false;
      mode := 'i';
      stack := new Scope[MAX_DEPTH](_ => ArrayScope);
      top := 0;
      out := [];
      progress := Fresh;
    }

    /** `append`: the next value, where one is expected. */
    method Append(s: Text) returns (ok: bool)
      modifies this
      ensures ok <==> old(mode) == 'o' || old(mode) == 'a'
      ensures ok ==> out == old(out) + Comma(old(comma) && old(mode) == 'a') + s
      ensures ok ==> comma && mode == if old(mode) == 'o' then 'k' else 'a'
      ensures unchanged(`top) && unchanged(`progress)
    {
      if mode == 'o' || mode == 'a' {
        if comma && mode == 'a' {
          out := out + [COMMA];
        }
        out := out + s;
        if mode == 'o' {
          mode := 'k';
        }
        comma := true;
        return true;
      }
      return false;
    }

    /** `push`: opens a scope, unless 200 are open. */
    method PushScope(s: Scope) returns (ok: bool)
      requires stack.Length == MAX_DEPTH && 0 <= top <= MAX_DEPTH
      modifies this, stack
      ensures ok <==> old(top) < MAX_DEPTH
      ensures ok ==> top == old(top) + 1 && stack[..top] == old(stack[..top]) + [s]
      ensures ok ==> mode == if s.ArrayScope? then 'a' else 'k'
      ensures unchanged(`out) && unchanged(`comma) && unchanged(`progress)
    {
      if top >= MAX_DEPTH {
        return false;
      }
      stack[top] := s;
      mode := if s.ArrayScope? then 'a' else 'k';
      top := top + 1;
      return true;
    }

    /** `pop`: closes a scope of the given kind and goes back to the enclosing one. */
    method PopScope(c: char) returns (ok: bool)
      requires stack.Length == MAX_DEPTH && 0 <= top <= MAX_DEPTH
      modifies this
      ensures ok <==> old(top) > 0 && c == if stack[old(top) - 1].ArrayScope? then 'a' else 'k'
      ensures ok ==> top == old(top) - 1
      ensures ok ==> mode == ModeBelow(stack[..top])
      ensures unchanged(`out) && unchanged(`comma) && unchanged(`progress)
    {
      if top <= 0 {
        return false;
      }
      var m := if stack[top - 1].ArrayScope? then 'a' else 'k';
      if m != c {
        return false;
      }
      top := top - 1;
      mode := if top == 0 then 'd' else if stack[top - 1].ArrayScope? then 'a' else 'k';
      return true;
    }

    /** `array()`. */
    method Array() returns (ok: bool)
      requires Valid()
      modifies this, stack
      ensures ok <==> Feed(old(progress), BeginArray).Some?
      ensures ok ==> Valid() && progress == Feed(old(progress), BeginArray).value
    {
      hide Sound, Begin, Fits;
      BeginFits(progress, InArray([]), mode, comma, stack[..top], out);
      if mode == 'i' || mode == 'o' || mode == 'a' {
        ok := PushScope(ArrayScope);
        if !ok {
          return;
        }
        ok := Append([OPEN_BRACKET]);
        comma := false;
        progress := Feed(progress, BeginArray).value;
        return;
      }
      return false;
    }

    /** `object()`. */
    method Object() returns (ok: bool)
      requires Valid()
      modifies this, stack
      ensures ok <==> Feed(old(progress), BeginObject).Some?
      ensures ok ==> Valid() && progress == Feed(old(progress), BeginObject).value
    {
      hide Sound, Begin, Fits;
      BeginFits(progress, InObject([], None), mode, comma, stack[..top], out);
      if mode == 'i' {
        mode := 'o';
      }
      if mode == 'o' || mode == 'a' {
        ok := Append([OPEN_BRACE]);
        ok := PushScope(ObjectScope({}));
        if !ok {
          return;
        }
        comma := false;
        progress := Feed(progress, BeginObject).value;
        return;
      }
      return false;
    }

    /** `key(string)`. */
    method Key(s: Text) returns (ok: bool)
      requires Valid()
      modifies this, stack
      ensures ok <==> Feed(old(progress), JsonCalls.Key(s)).Some?
      ensures ok ==> Valid() && progress == Feed(old(progress), JsonCalls.Key(s)).value
    {
      hide Sound, Feed, Fits, Quote;
      KeyFits(progress, s, mode, comma, stack[..top], out);
      if mode == 'k' {
        assert stack[top - 1] == stack[..top][top - 1];
        assert stack[..top - 1] == stack[..top][..top - 1];
        if s in stack[top - 1].keys {
          return false;
        }
        ghost var scopes, before := stack[..top], out + Comma(comma);
        stack[top - 1] := ObjectScope(stack[top - 1].keys + {s});
        if comma {
          out := out + [COMMA];
        }
        assert out == before;
        out := out + Quote(s);
        out := out + [COLON];
        comma := false;
        mode := 'o';
        assert stack[..top] == scopes[..top - 1] + [stack[top - 1]];
        progress := Feed(progress, JsonCalls.Key(s)).value;
        return true;
      }
      return false;
    }

    /** `value(...)`, for a value of any kind. */
    method Value(t: Tree) returns (ok: bool)
      requires Valid() && Legal(t)
      modifies this
      ensures ok <==> Feed(old(progress), JsonCalls.Value(t)).Some?
      ensures ok ==> Valid() && progress == Feed(old(progress), JsonCalls.Value(t)).value
    {
      hide Sound, Feed, Fits, Compact;
      ValueFits(progress, t, mode, comma, stack[..top], out);
      ok := Append(Compact(t));
      if ok {
        progress := Feed(progress, JsonCalls.Value(t)).value;
      }
    }

    /** `endArray()`. */
    method EndArray() returns (ok: bool)
      requires Valid()
      modifies this
      ensures ok <==> Feed(old(progress), JsonCalls.EndArray).Some?
      ensures ok ==> Valid() && progress == Feed(old(progress), JsonCalls.EndArray).value
    {
      ok := End('a', CLOSE_BRACKET);
    }

    /** `endObject()`. */
    method EndObject() returns (ok: bool)
      requires Valid()
      modifies this
      ensures ok <==> Feed(old(progress), JsonCalls.EndObject).Some?
      ensures ok ==> Valid() && progress == Feed(old(progress), JsonCalls.EndObject).value
    {
      ok := End('k', CLOSE_BRACE);
    }

    /** `end`. */
    method End(m: char, c: CodeUnit) returns (ok: bool)
      requires Valid()
      requires (m == 'a' && c == CLOSE_BRACKET) || (m == 'k' && c == CLOSE_BRACE)
      modifies this
      ensures ok <==> Feed(old(progress), if m == 'a' then JsonCalls.EndArray else JsonCalls.EndObject).Some?
      ensures ok ==> Valid() && progress == Feed(old(progress), if m == 'a' then JsonCalls.EndArray else JsonCalls.EndObject).value
    {
      hide Sound, Feed, Fits;
      ghost var call := if m == 'a' then JsonCalls.EndArray else JsonCalls.EndObject;
      EndFits(progress, m, mode, comma, stack[..top], out);
      if mode != m {
        return false;
      }
      assert stack[..top][top - 1] == stack[top - 1] && stack[..top - 1] == stack[..top][..top - 1];
      ok := PopScope(m);
      out := out + [c];
      comma := true;
      progress := Feed(progress, call).value;
    }

    /** Any one call. */
    method Do(c: Call) returns (ok: bool)
      requires Valid() && (c.Value? ==> Legal(c.tree))
      modifies this, stack
      ensures ok <==> Feed(old(progress), c).Some?
      ensures ok ==> Valid() && progress == Feed(old(progress), c).value
    {
      hide Sound, Feed, Fits;
      match c
      case BeginArray => ok := Array();
      case EndArray => ok := EndArray();
      case BeginObject => ok := Object();
      case EndObject => ok := EndObject();
      case Key(k) => ok := Key(k);
      case Value(t) => ok := Value(t);
    }

    /** `JSONStringer.toString()`: the text of a completed run, and nothing before. */
    method ToString() returns (r: Option<Text>)
      requires Valid()
      ensures r == if progress.Done? then Some(NodeText(progress.root)) else None
    {
      return if mode == 'd' then Some(out) else None;
    }
  }

  // ---------- what each call does to the fields ----------

  lemma BeginFits(p: Progress, f: Frame, mode: char, comma: bool, scopes: seq<Scope>, out: Text)
    requires Sound(p) && Fits(p, mode, comma, scopes, out)
    requires f == InArray([]) || f == InObject([], None)
    ensures Begin(p, f).Some? <==> (mode == 'i' || mode == 'o' || mode == 'a') && |scopes| < MAX_DEPTH
    ensures mode != 'a' && Begin(p, f).Some? ==> !comma
    ensures Begin(p, f).Some? ==>
              var q := Begin(p, f).value;
              && Sound(q)
              && Fits(q, if f.InArray? then 'a' else 'k', false,
                      scopes + [if f.InArray? then ArrayScope else ObjectScope({})],
                      out + Comma(comma && mode == 'a') + [if f.InArray? then OPEN_BRACKET else OPEN_BRACE])
  {
    ScopesCount(FramesOf(p));
    if Begin(p, f).Some? {
      BeginKeeps(p, f);
      BeginText(FramesOf(p), f);
      assert f.InObject? ==> KeysOf(f.members) + {} == {};
    }
  }

  lemma BeginText(frames: Frames, f: Frame)
    requires f == InArray([]) || f == InObject([], None)
    ensures FramesText(Inside(f, frames))
         == FramesText(frames) + CommaBefore(frames) + [if f.InArray? then OPEN_BRACKET else OPEN_BRACE]
  {
    assert FrameText(f) == [if f.InArray? then OPEN_BRACKET else OPEN_BRACE];
  }

  /** Completing a value inside the frames fits them too. */
  lemma PlaceFits(frames: Frames, n: Node)
    requires SoundFrames(frames) && (frames.Inside? ==> TakesValue(frames.top))
    requires Buildable(n, MAX_DEPTH - Depth(frames)) && (frames.Nothing? ==> !n.Leaf?)
    ensures var p := Place(frames, n);
            && Sound(p) && CommaOf(p)
            && ScopesOf(FramesOf(p)) == ScopesOf(frames)
            && ModeOf(p) == (if frames.Nothing? then 'd' else if frames.top.InArray? then 'a' else 'k')
            && TextSoFar(p) == FramesText(frames) + CommaBefore(frames) + NodeText(n)
  {
    PlaceKeeps(frames, n);
    PlaceText(frames, n);
    if frames.Inside? {
      ExtendScope(frames.top, n);
    }
  }

  lemma ExtendScope(f: Frame, n: Node)
    requires TakesValue(f)
    ensures ScopeOf(Extend(f, n)) == ScopeOf(f)
  {
    if f.InObject? {
      var m := NodeMember(f.pending.value, n);
      var more := f.members + [m];
      assert KeysOf(more) == KeysOf(f.members) + {m.key} by {
        assert more[|f.members|] == m;
        assert forall i :: 0 <= i < |f.members| ==> more[i] == f.members[i];
      }
    }
  }

  /** The fields after a key. */
  lemma KeyFits(p: Progress, k: Text, mode: char, comma: bool, scopes: seq<Scope>, out: Text)
    requires Sound(p) && Fits(p, mode, comma, scopes, out)
    ensures mode != 'k' ==> Feed(p, JsonCalls.Key(k)).None?
    ensures mode == 'k' ==>
              var last := |scopes| - 1;
              && last >= 0 && scopes[last].ObjectScope?
              && (Feed(p, JsonCalls.Key(k)).Some? <==> k !in scopes[last].keys)
              && (k !in scopes[last].keys ==>
                    var q := Feed(p, JsonCalls.Key(k)).value;
                    && Sound(q)
                    && Fits(q, 'o', false, scopes[..last] + [ObjectScope(scopes[last].keys + {k})],
                            out + Comma(comma) + Quote(k) + [COLON]))
  {
    if mode == 'k' {
      var Inside(f, below) := p.frames;
      assert KeysOf(f.members) + {} == KeysOf(f.members);
      assert scopes[..|scopes| - 1] == ScopesOf(below);
      if k !in KeysOf(f.members) {
        FeedKeeps(p, JsonCalls.Key(k));
        KeyTextFits(f.members, k, FramesText(below) + CommaBefore(below));
      }
    }
  }

  lemma KeyTextFits(members: seq<NodeMember>, k: Text, before: Text)
    ensures before + FrameText(InObject(members, Some(k)))
         == before + FrameText(InObject(members, None)) + Comma(members != []) + Quote(k) + [COLON]
  {
    hide MembersText, Quote;
    var t, c, q := MembersText(members), Comma(members != []), Quote(k);
    assert [OPEN_BRACE] + t + [] == [OPEN_BRACE] + t;
    assert before + ([OPEN_BRACE] + t + (c + q + [COLON])) == before + ([OPEN_BRACE] + t) + c + q + [COLON];
  }

  /** The fields after a value. */
  lemma ValueFits(p: Progress, t: Tree, mode: char, comma: bool, scopes: seq<Scope>, out: Text)
    requires Sound(p) && Legal(t) && Fits(p, mode, comma, scopes, out)
    ensures Feed(p, JsonCalls.Value(t)).Some? <==> mode == 'o' || mode == 'a'
    ensures mode == 'o' || mode == 'a' ==>
              var q := Feed(p, JsonCalls.Value(t)).value;
              && Sound(q)
              && Fits(q, if mode == 'o' then 'k' else 'a', true, scopes,
                      out + Comma(comma && mode == 'a') + Compact(t))
  {
    hide Compact, Place, FramesText, ScopesOf, SoundFrames, NodeText, HasKey;
    if mode == 'o' || mode == 'a' {
      LeafFits(p.frames, t);
    }
  }

  lemma LeafFits(frames: Frames, t: Tree)
    requires frames.Inside? && SoundFrames(frames) && TakesValue(frames.top) && Legal(t)
    ensures var q := Place(frames, Leaf(t));
            && Sound(q)
            && Fits(q, if frames.top.InArray? then 'a' else 'k', true, ScopesOf(frames),
                    FramesText(frames) + CommaBefore(frames) + Compact(t))
  {
    hide Compact;
    assert Buildable(Leaf(t), MAX_DEPTH - Depth(frames)) && NodeText(Leaf(t)) == Compact(t);
    hide Buildable, NodeText, FramesText, ScopesOf, SoundFrames, Depth, Extend;
    PlaceFits(frames, Leaf(t));
  }

  /** The fields after the end of an array or object. */
  lemma EndFits(p: Progress, m: char, mode: char, comma: bool, scopes: seq<Scope>, out: Text)
    requires Sound(p) && (m == 'a' || m == 'k') && Fits(p, mode, comma, scopes, out)
    ensures var r := Feed(p, if m == 'a' then JsonCalls.EndArray else JsonCalls.EndObject);
            && (r.Some? <==> mode == m)
            && (r.Some? ==>
                  && |scopes| > 0 && (scopes[|scopes| - 1].ArrayScope? <==> m == 'a')
                  && Sound(r.value)
                  && Fits(r.value, ModeBelow(scopes[..|scopes| - 1]), true, scopes[..|scopes| - 1],
                          out + [if m == 'a' then CLOSE_BRACKET else CLOSE_BRACE]))
  {
    hide Place, FramesText, SoundFrames, NodeText, HasKey, Ended;
    if mode == m {
      EndedFits(p.frames.top, p.frames.below);
      assert scopes[..|scopes| - 1] == ScopesOf(p.frames.below);
    }
  }

  lemma EndedFits(f: Frame, below: Frames)
    requires SoundFrames(Inside(f, below)) && (f.InObject? ==> f.pending.None?)
    ensures var q := Place(below, Ended(f));
            && JsonCalls.End(below, if f.InArray? then ArrNode(f.items) else ObjNode(f.members)) == Some(q)
            && Sound(q)
            && Fits(q, ModeBelow(ScopesOf(below)), true, ScopesOf(below),
                    FramesText(Inside(f, below)) + [if f.InArray? then CLOSE_BRACKET else CLOSE_BRACE])
  {
    EndedIsSound(f, MAX_DEPTH - Depth(below));
    assert SoundFrames(below) && (below.Inside? ==> TakesValue(below.top));
    hide NodeText, FramesText, ScopesOf, SoundFrames, Buildable;
    PlaceFits(below, Ended(f));
    EndedText(f, below);
    ModeBelowFits(below);
  }

  /** The mode that `pop` goes back to. */
  function ModeBelow(scopes: seq<Scope>): char {
    if scopes == [] then 'd' else if scopes[|scopes| - 1].ArrayScope? then 'a' else 'k'
  }

  lemma ModeBelowFits(frames: Frames)
    ensures ModeBelow(ScopesOf(frames)) == if frames.Nothing? then 'd' else if frames.top.InArray? then 'a' else 'k'
  {
  }

  lemma ScopesCount(frames: Frames)
    ensures |ScopesOf(frames)| == Depth(frames)
  {
  }

  // ---------- whole runs ----------

  lemma {:induction false} FlatIsLegal(n: Node, depth: int)
    requires Buildable(n, depth)
    ensures Legal(Flat(n))
  {
    match n
    case Leaf(_) =>
    case ArrNode(items) =>
      forall i | 0 <= i < |items| ensures Legal(FlatItems(items)[i]) {
        FlatIsLegal(items[i], depth - 1);
      }
    case ObjNode(members) =>
      forall i | 0 <= i < |members| ensures Legal(FlatMembers(members)[i].tree) {
        FlatIsLegal(members[i].node, depth - 1);
      }
  }

  /** The text of a completed run is parsed back to the tree that its calls describe. */
  lemma CompletedTextReadsBack(lib: Library, n: Node, rest: Text)
    requires !n.Leaf? && Buildable(n, MAX_DEPTH)
    ensures Legal(Flat(n))
    ensures n.ObjNode? ==> ParseObject(lib, NodeText(n) + rest) == Ok(Content(Flat(n)), rest)
    ensures n.ArrNode? ==> ParseArray(lib, NodeText(n) + rest) == Ok(Content(Flat(n)), rest)
  {
    FlatIsLegal(n, MAX_DEPTH);
    if n.ObjNode? {
      ObjectRoundTrip(lib, Flat(n), 0, 0, rest);
    } else {
      ArrayRoundTrip(lib, Flat(n), 0, 0, rest);
    }
  }

  /** The calls of a program, up to the first exception. */
  method Play(calls: seq<Call>) returns (w: JSONWriter, ok: bool)
    requires forall i :: 0 <= i < |calls| && calls[i].Value? ==> Legal(calls[i].tree)
    ensures ok <==> Run(Fresh, calls).Some?
    ensures ok ==> w.Valid() && w.progress == Run(Fresh, calls).value
  {
    hide Feed;
    w := new JSONWriter();
    ok := true;
    assert calls[0..] == calls;
    for i := 0 to |calls|
      invariant ok && w.Valid() && fresh(w) && fresh(w.stack)
      invariant Run(Fresh, calls) == Run(w.progress, calls[i..])
    {
      assert calls[i..][0] == calls[i] && calls[i..][1..] == calls[i + 1..];
      ok := w.Do(calls[i]);
      if !ok {
        return;
      }
    }
    assert calls[|calls|..] == [];
  }

  /**
   `JSONStringer`: text comes out exactly when the calls are the call stream of an array or
   object, and then it is the compact text of that tree.
   */
  method Stringify(calls: seq<Call>) returns (r: Option<Text>)
    requires forall i :: 0 <= i < |calls| && calls[i].Value? ==> Legal(calls[i].tree)
    ensures r.Some? <==> exists n :: calls == Calls(n) && !n.Leaf? && Buildable(n, 200)
    ensures forall n :: calls == Calls(n) && !n.Leaf? && Buildable(n, 200) ==> r == Some(Compact(Flat(n)))
  {
    forall n | calls == Calls(n) && !n.Leaf? && Buildable(n, MAX_DEPTH)
      ensures Run(Fresh, calls) == Some(Done(n))
    {
      CompletedRunsAreCallStreams(calls, n);
    }
    var w, ok := Play(calls);
    if !ok {
      return None;
    }
    if w.progress.Done? {
      CompletedRunsAreCallStreams(calls, w.progress.root);
    }
    r := w.ToString();
  }
}
