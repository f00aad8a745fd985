/**
 The unread text bounds what a parse can build: nesting depth and element counts never exceed
 the number of characters that were read.
 */
module JsonBounds {
  import opened CodeUnits
  import opened JsonValue
  import opened JsonParser

  /** A value of nesting depth at most n whose containers at depth d have fewer than n - d entries. */
  ghost predicate Fits(v: Value, n: int)
    decreases n
  {
    n >= 1 &&
    match v
    case Arr(items) => |items| < n && forall i :: 0 <= i < |items| ==> Fits(items[i], n - 1)
    case Obj(members) => |members| < n && forall k :: k in members ==> Fits(members[k], n - 1)
    case _ => true
  }

  lemma {:induction false} FitsMore(v: Value, a: int, b: int)
    requires Fits(v, a) && a <= b
    ensures Fits(v, b)
    decreases a
  {
    match v
    case Arr(items) =>
      forall i | 0 <= i < |items| ensures Fits(items[i], b - 1) {
        FitsMore(items[i], a - 1, b - 1);
      }
    case Obj(members) =>
      forall k | k in members ensures Fits(members[k], b - 1) {
        FitsMore(members[k], a - 1, b - 1);
      }
    case _ =>
  }

  /** One more element, of b characters, and what ends it. */
  lemma FitsOneMore(items: seq<Value>, a: int, x: Value, b: int, taken: int)
    requires Fits(Arr(items), a) && Fits(x, b) && b <= taken
    ensures Fits(Arr(items + [x]), a + taken)
  {
    FitsMore(Arr(items), a, a + taken);
    FitsMore(x, b, a + taken - 1);
  }

  lemma FitsOnePut(members: map<Text, Value>, a: int, key: Text, x: Value, b: int, taken: int)
    requires Fits(Obj(members), a) && Fits(x, b) && b <= taken
    ensures Fits(Obj(members[key := x]), a + taken)
  {
    FitsMore(Obj(members), a, a + taken);
    FitsMore(x, b, a + taken - 1);
    assert members[key := x].Keys == members.Keys + {key};
  }

  /** What `nextValue` returns fits into the characters it took. */
  lemma {:induction false} NextValueFits(lib: Library, u: Text)
    ensures var r := NextValue(lib, u); r.Ok? ==> Fits(r.value, |u| - |r.rest|)
    decreases |u|, 1
  {
    hide Fits, ParseObject, ParseArray, NextString;
    var v := SkipBlank(u);
    var r := NextValue(lib, u);
    if r.Ok? {
      if Head(v) == OPEN_BRACE {
        ParseObjectFits(lib, v);
        FitsMore(r.value, |v| - |r.rest|, |u| - |r.rest|);
      } else if Head(v) == OPEN_BRACKET {
        ParseArrayFits(lib, v);
        FitsMore(r.value, |v| - |r.rest|, |u| - |r.rest|);
      } else {
        ScalarFits(r.value, |u| - |r.rest|);
      }
    }
  }

  lemma ScalarFits(v: Value, n: int)
    requires !v.Arr? && !v.Obj? && n >= 1
    ensures Fits(v, n)
  {
  }

  lemma {:induction false} ParseObjectFits(lib: Library, u: Text)
    ensures var r := ParseObject(lib, u); r.Ok? ==> Fits(r.value, |u| - |r.rest|)
    decreases |u|, 0
  {
    var r := ParseObject(lib, u);
    if r.Ok? {
      var v := SkipBlank(u);
      ObjectRestFits(lib, v[1..], map[], 1 + |u| - |v|);
    }
  }

  /** The object loop, after the n characters that gave the members m. */
  lemma {:induction false} ObjectRestFits(lib: Library, u: Text, m: map<Text, Value>, n: int)
    requires Fits(Obj(m), n)
    ensures var r := ObjectRest(lib, u, m); r.Ok? ==> Fits(r.value, n + |u| - |r.rest|)
    decreases |u|, 3
  {
    hide Fits, NextValue, Pair;
    var v := SkipBlank(u);
    var r := ObjectRest(lib, u, m);
    if r.Ok? {
      if Head(v) == CLOSE_BRACE {
        FitsMore(Obj(m), n, n + |u| - |r.rest|);
      } else {
        PairFits(lib, v);
        var (key, x) := Pair(lib, v).value;
        var afterPair := Pair(lib, v).rest;
        var end := ItemEnd(afterPair, CLOSE_BRACE, PairSeparator);
        FitsOnePut(m, n, key, x, |v| - |afterPair|, |u| - |end.rest|);
        if !end.value {
          ObjectRestFits(lib, end.rest, m[key := x], n + |u| - |end.rest|);
        }
      }
    }
  }

  lemma {:induction false} PairFits(lib: Library, u: Text)
    ensures var r := Pair(lib, u); r.Ok? ==> Fits(r.value.1, |u| - |r.rest|)
    decreases |u|, 2
  {
    hide Fits, NextValue;
    var r := Pair(lib, u);
    if r.Ok? {
      var w := KeySeparator(NextValue(lib, u).rest).rest;
      NextValueFits(lib, w);
      FitsMore(r.value.1, |w| - |r.rest|, |u| - |r.rest|);
    }
  }

  lemma {:induction false} ParseArrayFits(lib: Library, u: Text)
    ensures var r := ParseArray(lib, u); r.Ok? ==> Fits(r.value, |u| - |r.rest|)
    decreases |u|, 0
  {
    var r := ParseArray(lib, u);
    if r.Ok? {
      var v := SkipBlank(u);
      var w := SkipBlank(v[1..]);
      if Head(w) != CLOSE_BRACKET {
        ArrayRestFits(lib, w, [], |u| - |w|);
      }
    }
  }

  /** The array loop, after the n characters that gave the elements. */
  lemma {:induction false} ArrayRestFits(lib: Library, u: Text, items: seq<Value>, n: int)
    requires Fits(Arr(items), n)
    ensures var r := ArrayRest(lib, u, items); r.Ok? ==> Fits(r.value, n + |u| - |r.rest|)
    decreases |u|, 3
  {
    hide Fits, NextValue, Element;
    var r := ArrayRest(lib, u, items);
    if r.Ok? {
      ElementFits(lib, u);
      var x := Element(lib, u).value;
      var afterElement := Element(lib, u).rest;
      var end := ItemEnd(afterElement, CLOSE_BRACKET, ArraySeparator);
      var taken := |u| - |end.rest|;
      FitsOneMore(items, n, x, 1 + |u| - |afterElement|, taken);
      if !end.value {
        ArrayRestFits(lib, end.rest, items + [x], n + taken);
      }
    }
  }

  lemma {:induction false} ElementFits(lib: Library, u: Text)
    ensures var r := Element(lib, u); r.Ok? ==> Fits(r.value, 1 + |u| - |r.rest|)
    decreases |u|, 2
  {
    hide NextValue;
    var r := Element(lib, u);
    var v := SkipBlank(u);
    if r.Ok? && Head(v) != COMMA {
      NextValueFits(lib, v);
      FitsMore(r.value, |v| - |r.rest|, 1 + |u| - |r.rest|);
    }
  }
}
