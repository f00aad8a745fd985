/**
 The meaning of a stream of `JSONWriter` calls: the tree that is being built, as far as it
 is known, and its text. A run of calls is accepted and completed exactly when it is the
 call stream of one tree.
 */
module JsonCalls {
  import opened Options
  import opened CodeUnits
  import opened Sequences
  import opened JsonValue
  import opened JsonLayout
  import opened JsonPrinter

  const MAX_DEPTH := 200

  /** A value whose whole tree is handed over in one call can stand anywhere in the stream. */
  datatype Call =
    | BeginArray
    | EndArray
    | BeginObject
    | EndObject
    | Key(key: Text)
    | Value(tree: Tree)

  /** A tree together with the calls that build it. */
  datatype Node = Leaf(tree: Tree) | ArrNode(items: seq<Node>) | ObjNode(members: seq<NodeMember>)

  datatype NodeMember = NodeMember(key: Text, node: Node)

  function Calls(n: Node): seq<Call>
    decreases n, 0
  {
    match n
    case Leaf(t) => [Value(t)]
    case ArrNode(items) => [BeginArray] + CallsOfItems(items) + [EndArray]
    case ObjNode(members) => [BeginObject] + CallsOfMembers(members) + [EndObject]
  }

  function CallsOfItems(items: seq<Node>): seq<Call>
    decreases items, 1
  {
    if items == [] then [] else CallsOfItems(items[..|items| - 1]) + Calls(items[|items| - 1])
  }

  function CallsOfMembers(members: seq<NodeMember>): seq<Call>
    decreases members, 1
  {
    if members == [] then []
    else CallsOfMembers(members[..|members| - 1])
         + [Key(members[|members| - 1].key)] + Calls(members[|members| - 1].node)
  }

  /** The tree itself, with the keys in call order. */
  function Flat(n: Node): Tree
    decreases n, 0
  {
    match n
    case Leaf(t) => t
    case ArrNode(items) => ArrTree(FlatItems(items))
    case ObjNode(members) => ObjTree(FlatMembers(members))
  }

  function FlatItems(items: seq<Node>): (ts: seq<Tree>)
    decreases items, 1
    ensures |ts| == |items|
    ensures forall i :: 0 <= i < |items| ==> ts[i] == Flat(items[i])
  {
    if items == [] then [] else FlatItems(items[..|items| - 1]) + [Flat(items[|items| - 1])]
  }

  function FlatMembers(members: seq<NodeMember>): (ms: seq<Member>)
    decreases members, 1
    ensures |ms| == |members|
    ensures forall i :: 0 <= i < |members| ==> ms[i] == Member(members[i].key, Flat(members[i].node))
  {
    if members == [] then []
    else FlatMembers(members[..|members| - 1])
         + [Member(members[|members| - 1].key, Flat(members[|members| - 1].node))]
  }

  /** The compact text of a tree, as `toString()` prints it. */
  function Compact(t: Tree): Text {
    Print(Pretty(t, 0, 0))
  }

  /** Legal values, one value per key, and at most the given number of nested calls. */
  predicate Buildable(n: Node, depth: int) {
    match n
    case Leaf(t) => Legal(t)
    case ArrNode(items) => depth > 0 && forall i :: 0 <= i < |items| ==> Buildable(items[i], depth - 1)
    case ObjNode(members) =>
      && depth > 0
      && (forall i :: 0 <= i < |members| ==> Buildable(members[i].node, depth - 1))
      && KeysDistinct(members)
  }

  predicate KeysDistinct(members: seq<NodeMember>) {
    forall i, j :: 0 <= i < j < |members| ==> members[i].key != members[j].key
  }

  // ---------- a run in progress ----------

  /** An array or object that was begun and not ended. */
  datatype Frame = InArray(items: seq<Node>) | InObject(members: seq<NodeMember>, pending: Option<Text>)

  /** The open arrays and objects, the innermost first. */
  datatype Frames = Nothing | Inside(top: Frame, below: Frames)

  datatype Progress = Fresh | Open(frames: Frames) | Done(root: Node)

  function Depth(frames: Frames): nat {
    if frames.Nothing? then 0 else 1 + Depth(frames.below)
  }

  predicate TakesValue(f: Frame) {
    f.InArray? || f.pending.Some?
  }

  /** The frame with one more completed value. */
  function Extend(f: Frame, n: Node): Frame
    requires TakesValue(f)
  {
    match f
    case InArray(items) => InArray(items + [n])
    case InObject(members, pending) => InObject(members + [NodeMember(pending.value, n)], None)
  }

  /** A completed value becomes part of the innermost open array or object. */
  function Place(frames: Frames, n: Node): Progress
    requires frames.Inside? ==> TakesValue(frames.top)
  {
    match frames
    case Nothing => Done(n)
    case Inside(f, below) => Open(Inside(Extend(f, n), below))
  }

  function Begin(p: Progress, f: Frame): Option<Progress> {
    match p
    case Fresh => Some(Open(Inside(f, Nothing)))
    case Open(frames) =>
      if frames.Inside? && TakesValue(frames.top) && Depth(frames) < MAX_DEPTH
      then Some(Open(Inside(f, frames)))
      else None
    case Done(_) => None
  }

  function End(frames: Frames, n: Node): Option<Progress> {
    if frames.Inside? && !TakesValue(frames.top) then None else Some(Place(frames, n))
  }

  /** The next call, or None where the writer throws. */
  function Feed(p: Progress, c: Call): Option<Progress> {
    if c.BeginArray? then Begin(p, InArray([]))
    else if c.BeginObject? then Begin(p, InObject([], None))
    else if !p.Open? || p.frames.Nothing? then None
    else
      var Inside(f, below) := p.frames;
      match c
      case Value(t) => if TakesValue(f) then Some(Place(p.frames, Leaf(t))) else None
      case Key(k) =>
        if f.InObject? && f.pending.None? && !HasKey(f.members, k)
        then Some(Open(Inside(InObject(f.members, Some(k)), below)))
        else None
      case EndArray => if f.InArray? then End(below, ArrNode(f.items)) else None
      case EndObject => if f.InObject? && f.pending.None? then End(below, ObjNode(f.members)) else None
  }

  predicate HasKey(members: seq<NodeMember>, k: Text) {
    exists i :: 0 <= i < |members| && members[i].key == k
  }

  function Run(p: Progress, calls: seq<Call>): Option<Progress>
    decreases calls
  {
    if calls == [] then Some(p)
    else
      match Feed(p, calls[0])
      case None => None
      case Some(q) => Run(q, calls[1..])
  }

  // ---------- every run builds what its calls say ----------

  function FrameCalls(f: Frame): seq<Call> {
    match f
    case InArray(items) => [BeginArray] + CallsOfItems(items)
    case InObject(members, pending) =>
      [BeginObject] + CallsOfMembers(members) + (if pending.Some? then [Key(pending.value)] else [])
  }

  function CallsOfFrames(frames: Frames): seq<Call> {
    match frames
    case Nothing => []
    case Inside(f, below) => CallsOfFrames(below) + FrameCalls(f)
  }

  /** The calls that were made so far. */
  function CallsSoFar(p: Progress): seq<Call> {
    match p
    case Fresh => []
    case Open(frames) => CallsOfFrames(frames)
    case Done(n) => Calls(n)
  }

  predicate SoundFrame(f: Frame, depth: int) {
    match f
    case InArray(items) => depth > 0 && forall i :: 0 <= i < |items| ==> Buildable(items[i], depth - 1)
    case InObject(members, pending) =>
      && depth > 0
      && (forall i :: 0 <= i < |members| ==> Buildable(members[i].node, depth - 1))
      && KeysDistinct(members)
      && (pending.Some? ==> !HasKey(members, pending.value))
  }

  /** Every frame is sound at its depth, and every enclosing one awaits a value. */
  predicate SoundFrames(frames: Frames) {
    match frames
    case Nothing => true
    case Inside(f, below) =>
      && SoundFrame(f, MAX_DEPTH - Depth(below))
      && SoundFrames(below)
      && (below.Inside? ==> TakesValue(below.top))
  }

  /** What every reachable progress satisfies. */
  predicate Sound(p: Progress) {
    match p
    case Fresh => true
    case Open(frames) => frames.Inside? && SoundFrames(frames)
    case Done(n) => !n.Leaf? && Buildable(n, MAX_DEPTH)
  }

  lemma ExtendIsSound(f: Frame, n: Node, depth: int)
    requires TakesValue(f) && SoundFrame(f, depth) && Buildable(n, depth - 1)
    ensures SoundFrame(Extend(f, n), depth)
  {
  }

  lemma ExtendCalls(f: Frame, n: Node)
    requires TakesValue(f)
    ensures FrameCalls(Extend(f, n)) == FrameCalls(f) + Calls(n)
  {
    if f.InArray? {
      assert (f.items + [n])[..|f.items|] == f.items;
      Assoc([BeginArray], CallsOfItems(f.items), Calls(n));
    } else {
      var m := NodeMember(f.pending.value, n);
      assert (f.members + [m])[..|f.members|] == f.members;
      Assoc([BeginObject], CallsOfMembers(f.members) + [Key(m.key)], Calls(n));
      Assoc([BeginObject], CallsOfMembers(f.members), [Key(m.key)]);
      assert FrameCalls(Extend(f, n)) == [BeginObject] + CallsOfMembers(f.members + [m]) + [];
    }
  }

  lemma PlaceKeeps(frames: Frames, n: Node)
    requires SoundFrames(frames) && (frames.Inside? ==> TakesValue(frames.top))
    requires Buildable(n, MAX_DEPTH - Depth(frames)) && (frames.Nothing? ==> !n.Leaf?)
    ensures Sound(Place(frames, n))
    ensures CallsSoFar(Place(frames, n)) == CallsOfFrames(frames) + Calls(n)
  {
    hide Extend, FrameCalls, Calls, SoundFrame, Buildable;
    match frames
    case Nothing => assert [] + Calls(n) == Calls(n);
    case Inside(f, below) =>
      ExtendIsSound(f, n, MAX_DEPTH - Depth(below));
      ExtendCalls(f, n);
      Assoc(CallsOfFrames(below), FrameCalls(f), Calls(n));
      assert TakesValue(f);
  }

  lemma BeginKeeps(p: Progress, f: Frame)
    requires Sound(p) && Begin(p, f).Some?
    requires f == InArray([]) || f == InObject([], None)
    ensures Sound(Begin(p, f).value)
    ensures CallsSoFar(Begin(p, f).value) == CallsSoFar(p) + [Opening(f)]
  {
    assert FrameCalls(f) == [Opening(f)];
  }

  function Opening(f: Frame): Call {
    if f.InArray? then BeginArray else BeginObject
  }

  function Closing(f: Frame): Call {
    if f.InArray? then EndArray else EndObject
  }

  /** What a frame becomes when it is ended. */
  function Ended(f: Frame): Node {
    match f
    case InArray(items) => ArrNode(items)
    case InObject(members, _) => ObjNode(members)
  }

  lemma EndKeeps(f: Frame, below: Frames)
    requires Sound(Open(Inside(f, below))) && (f.InObject? ==> f.pending.None?)
    ensures var r := End(below, Ended(f));
            && r.Some? && Sound(r.value)
            && CallsSoFar(r.value) == CallsOfFrames(Inside(f, below)) + [Closing(f)]
  {
    EndedIsSound(f, MAX_DEPTH - Depth(below));
    EndedCalls(f);
    hide FrameCalls, Calls, SoundFrame, Buildable, Ended;
    PlaceKeeps(below, Ended(f));
    Assoc(CallsOfFrames(below), FrameCalls(f), [Closing(f)]);
  }

  lemma EndedIsSound(f: Frame, depth: int)
    requires SoundFrame(f, depth)
    ensures Buildable(Ended(f), depth) && !Ended(f).Leaf?
  {
  }

  lemma EndedCalls(f: Frame)
    requires f.InObject? ==> f.pending.None?
    ensures Calls(Ended(f)) == FrameCalls(f) + [Closing(f)]
  {
  }

  /** One accepted call keeps the progress sound and adds itself to the calls. */
  lemma FeedKeeps(p: Progress, c: Call)
    requires Sound(p) && (c.Value? ==> Legal(c.tree)) && Feed(p, c).Some?
    ensures Sound(Feed(p, c).value)
    ensures CallsSoFar(Feed(p, c).value) == CallsSoFar(p) + [c]
  {
    match c
    case BeginArray => BeginKeeps(p, InArray([]));
    case BeginObject => BeginKeeps(p, InObject([], None));
    case Value(t) => PlaceKeeps(p.frames, Leaf(t));
    case Key(k) =>
      var Inside(f, below) := p.frames;
      assert FrameCalls(InObject(f.members, Some(k))) == FrameCalls(f) + [c];
    case EndArray => EndKeeps(p.frames.top, p.frames.below);
    case EndObject => EndKeeps(p.frames.top, p.frames.below);
  }

  /** A run of accepted calls has built exactly what its calls say. */
  lemma {:induction false} RunKeeps(p: Progress, calls: seq<Call>)
    requires Sound(p) && Run(p, calls).Some?
    requires forall i :: 0 <= i < |calls| && calls[i].Value? ==> Legal(calls[i].tree)
    ensures Sound(Run(p, calls).value)
    ensures CallsSoFar(Run(p, calls).value) == CallsSoFar(p) + calls
    decreases calls
  {
    hide Sound, CallsSoFar, Feed;
    if calls != [] {
      FeedKeeps(p, calls[0]);
      RunKeeps(Feed(p, calls[0]).value, calls[1..]);
      assert CallsSoFar(p) + [calls[0]] + calls[1..] == CallsSoFar(p) + calls;
    } else {
      assert CallsSoFar(p) + calls == CallsSoFar(p);
    }
  }

  // ---------- every tree has a run ----------

  lemma {:induction false} RunAppends(p: Progress, a: seq<Call>, b: seq<Call>)
    requires Run(p, a).Some?
    ensures Run(p, a + b) == Run(Run(p, a).value, b)
    decreases a
  {
    if a == [] {
      assert a + b == b;
    } else {
      assert (a + b)[1..] == a[1..] + b;
      RunAppends(Feed(p, a[0]).value, a[1..], b);
    }
  }

  lemma RunOne(p: Progress, c: Call)
    ensures Run(p, [c]) == Feed(p, c)
  {
    if Feed(p, c).Some? {
      assert [c][1..] == [];
      assert Run(Feed(p, c).value, []) == Feed(p, c);
    }
  }

  /** Where a value is expected at this point. */
  function Awaiting(frames: Frames): Progress {
    if frames.Nothing? then Fresh else Open(frames)
  }

  /** Where a value is expected, the calls of a node place that node. */
  lemma {:induction false} NodeRuns(frames: Frames, n: Node)
    requires frames.Inside? ==> TakesValue(frames.top)
    requires frames.Nothing? ==> !n.Leaf?
    requires Buildable(n, MAX_DEPTH - Depth(frames))
    ensures Run(Awaiting(frames), Calls(n)) == Some(Place(frames, n))
    decreases n, 1
  {
    match n
    case Leaf(t) => RunOne(Awaiting(frames), Value(t));
    case ArrNode(items) =>
      ItemsRun(frames, items);
      BracketsRun(frames, InArray([]), CallsOfItems(items), InArray(items));
    case ObjNode(members) =>
      MembersRun(frames, members);
      BracketsRun(frames, InObject([], None), CallsOfMembers(members), InObject(members, None));
  }

  lemma BracketsRun(frames: Frames, f: Frame, calls: seq<Call>, g: Frame)
    requires frames.Inside? ==> TakesValue(frames.top)
    requires Depth(frames) < MAX_DEPTH
    requires f == if g.InArray? then InArray([]) else InObject([], None)
    requires g.InObject? ==> g.pending.None?
    requires Run(Open(Inside(f, frames)), calls) == Some(Open(Inside(g, frames)))
    ensures Run(Awaiting(frames), [Opening(f)] + calls + [Closing(g)]) == Some(Place(frames, Ended(g)))
  {
    RunOne(Awaiting(frames), Opening(f));
    RunAppends(Awaiting(frames), [Opening(f)], calls);
    RunAppends(Awaiting(frames), [Opening(f)] + calls, [Closing(g)]);
    RunOne(Open(Inside(g, frames)), Closing(g));
  }

  lemma {:induction false} ItemsRun(below: Frames, items: seq<Node>)
    requires Depth(below) < MAX_DEPTH
    requires forall i :: 0 <= i < |items| ==> Buildable(items[i], MAX_DEPTH - Depth(below) - 1)
    ensures Run(Open(Inside(InArray([]), below)), CallsOfItems(items)) == Some(Open(Inside(InArray(items), below)))
    decreases items, 0
  {
    if items != [] {
      var k := |items| - 1;
      ItemsRun(below, items[..k]);
      RunAppends(Open(Inside(InArray([]), below)), CallsOfItems(items[..k]), Calls(items[k]));
      NodeRuns(Inside(InArray(items[..k]), below), items[k]);
      assert items[..k] + [items[k]] == items;
    }
  }

  lemma {:induction false} MembersRun(below: Frames, members: seq<NodeMember>)
    requires Depth(below) < MAX_DEPTH && KeysDistinct(members)
    requires forall i :: 0 <= i < |members| ==> Buildable(members[i].node, MAX_DEPTH - Depth(below) - 1)
    ensures Run(Open(Inside(InObject([], None), below)), CallsOfMembers(members))
         == Some(Open(Inside(InObject(members, None), below)))
    decreases members, 0
  {
    if members != [] {
      var k := |members| - 1;
      var m, start := members[k], Open(Inside(InObject([], None), below));
      MembersRun(below, members[..k]);
      var before := Open(Inside(InObject(members[..k], None), below));
      var mid := Inside(InObject(members[..k], Some(m.key)), below);
      RunOne(before, Key(m.key));
      RunAppends(start, CallsOfMembers(members[..k]), [Key(m.key)]);
      RunAppends(start, CallsOfMembers(members[..k]) + [Key(m.key)], Calls(m.node));
      NodeRuns(mid, m.node);
      assert members[..k] + [NodeMember(m.key, m.node)] == members;
    }
  }

  /**
   The completed runs are exactly the call streams: a run ends completed if and only if its
   calls are those of an array or object of legal values with distinct keys, at most 200
   calls deep. That tree is the one the run has built, so there is only one.
   */
  lemma CompletedRunsAreCallStreams(calls: seq<Call>, n: Node)
    requires forall i :: 0 <= i < |calls| && calls[i].Value? ==> Legal(calls[i].tree)
    ensures Run(Fresh, calls) == Some(Done(n))
       <==> calls == Calls(n) && !n.Leaf? && Buildable(n, 200)
  {
    if Run(Fresh, calls) == Some(Done(n)) {
      RunKeeps(Fresh, calls);
      assert [] + calls == calls;
    }
    if calls == Calls(n) && !n.Leaf? && Buildable(n, MAX_DEPTH) {
      NodeRuns(Nothing, n);
    }
  }

  lemma CallStreamsDiffer(a: Node, b: Node)
    requires !a.Leaf? && Buildable(a, MAX_DEPTH) && !b.Leaf? && Buildable(b, MAX_DEPTH)
    requires Calls(a) == Calls(b)
    ensures a == b
  {
    NodeRuns(Nothing, a);
    NodeRuns(Nothing, b);
  }
}
