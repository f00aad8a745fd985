/**
 JSON values as the parser builds them, and the in-memory trees the printers walk.
 */
module JsonValue {
  import opened CodeUnits

  const LONG_MIN: int := -0x8000_0000_0000_0000
  const LONG_MAX: int := 0x7FFF_FFFF_FFFF_FFFF

  /** A parsed value. An object is its `HashMap`: a map without an order. */
  datatype Value =
    | Null
    | Bool(b: bool)
    | Int(n: int)
    | Decimal(token: Text)  // the finite double that Double.valueOf makes of this token
    | Str(s: Text)
    | Arr(items: seq<Value>)
    | Obj(members: map<Text, Value>)

  /**
   The parts of the Java library that a parse can reach and that this model keeps abstract.
   Every statement about parsing holds for each choice of them.
   */
  datatype Library = Library(
    digit: CodeUnit -> int,       // Character.digit above ASCII: 0..15, or negative
    finiteDouble: Text -> bool,   // Double.valueOf accepts the token and the result is finite
    toText: Value -> Text         // Object.toString of doubles, arrays and objects
  )

  /** A tree in memory. A member list is an object together with the iteration order of its map. */
  datatype Tree =
    | NullTree
    | BoolTree(b: bool)
    | IntTree(n: int)
    | StrTree(s: Text)
    | ArrTree(items: seq<Tree>)
    | ObjTree(members: seq<Member>)

  datatype Member = Member(key: Text, tree: Tree)

  /** The trees a Java program can hold: 64-bit integers and one value per key. */
  predicate Legal(t: Tree) {
    match t
    case NullTree => true
    case BoolTree(_) => true
    case IntTree(n) => LONG_MIN <= n <= LONG_MAX
    case StrTree(_) => true
    case ArrTree(items) => forall i :: 0 <= i < |items| ==> Legal(items[i])
    case ObjTree(members) =>
      && (forall i :: 0 <= i < |members| ==> Legal(members[i].tree))
      && (forall i, j :: 0 <= i < j < |members| ==> members[i].key != members[j].key)
  }

  /** What the tree holds, forgetting the iteration orders. */
  function Content(t: Tree): Value
    decreases t, 0
  {
    match t
    case NullTree => Null
    case BoolTree(b) => Bool(b)
    case IntTree(n) => Int(n)
    case StrTree(s) => Str(s)
    case ArrTree(items) => Arr(Contents(items))
    case ObjTree(members) => Obj(PutAll(map[], members))
  }

  function Contents(items: seq<Tree>): (vs: seq<Value>)
    decreases items, 1
    ensures |vs| == |items|
  {
    if items == [] then [] else [Content(items[0])] + Contents(items[1..])
  }

  function PutAll(m: map<Text, Value>, members: seq<Member>): map<Text, Value>
    decreases members, 1
  {
    if members == [] then m
    else PutAll(m[members[0].key := Content(members[0].tree)], members[1..])
  }

  /** With distinct keys the map built in iteration order holds each member, and only those. */
  lemma {:induction false} PutAllHolds(m: map<Text, Value>, members: seq<Member>)
    requires forall i, j :: 0 <= i < j < |members| ==> members[i].key != members[j].key
    requires forall i :: 0 <= i < |members| ==> members[i].key !in m
    ensures forall i :: 0 <= i < |members| ==>
              members[i].key in PutAll(m, members)
              && PutAll(m, members)[members[i].key] == Content(members[i].tree)
    ensures forall k :: k in PutAll(m, members) ==>
              k in m || exists i :: 0 <= i < |members| && members[i].key == k
    ensures forall k :: k in m ==> k in PutAll(m, members) && PutAll(m, members)[k] == m[k]
    decreases |members|
  {
    if members != [] {
      PutAllHolds(m[members[0].key := Content(members[0].tree)], members[1..]);
    }
  }

  /** Two trees that hold the same members in any two iteration orders have the same content. */
  lemma ContentIgnoresOrder(a: seq<Member>, b: seq<Member>)
    requires Legal(ObjTree(a)) && Legal(ObjTree(b))
    requires multiset(a) == multiset(b)
    ensures Content(ObjTree(a)) == Content(ObjTree(b))
  {
    PutAllHolds(map[], a);
    PutAllHolds(map[], b);
    ContentIncluded(a, b);
    ContentIncluded(b, a);
  }

  lemma ContentIncluded(a: seq<Member>, b: seq<Member>)
    requires Legal(ObjTree(a)) && Legal(ObjTree(b))
    requires multiset(a) == multiset(b)
    ensures forall k :: k in PutAll(map[], a) ==>
              k in PutAll(map[], b) && PutAll(map[], b)[k] == PutAll(map[], a)[k]
  {
    PutAllHolds(map[], a);
    PutAllHolds(map[], b);
    forall k | k in PutAll(map[], a)
      ensures k in PutAll(map[], b) && PutAll(map[], b)[k] == PutAll(map[], a)[k]
    {
      var i :| 0 <= i < |a| && a[i].key == k;
      assert a[i] in multiset(a);
      assert a[i] in b;
      var j :| 0 <= j < |b| && b[j] == a[i];
    }
  }
}
