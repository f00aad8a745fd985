/**
 The parser as the source runs it: a reader with one character of push-back, and loops
 over it. Each method is proved to do exactly what the pure parser does on the unread text.
 */
module Tokener {
  import opened CodeUnits
  import opened Sequences
  import opened JsonValue
  import opened JsonScalars
  import opened JsonParser

  /** What a method of the tokener ends in: a value, or a thrown exception. */
  datatype Result<+T> = Return(value: T) | Throw(error: Error)

  /** The method ended as the pure parser does, and on success left the same text unread. */
  predicate Refines<T(==)>(result: Result<T>, unread: Text, spec: Outcome<T>) {
    match spec
    case Ok(v, rest) => result == Return(v) && unread == rest
    case Fail(e) => result == Throw(e)
  }

  // ---------- unquoted tokens, character by character ----------

  /** sb was taken from the token at the start of v, and u follows it. */
  predicate TokenPart(v: Text, sb: Text, u: Text) {
    v == sb + u && Bare(v) == sb + Bare(u)
  }

  lemma TokenStarts(v: Text)
    ensures TokenPart(v, [], v)
  {
    assert [] + v == v && [] + Bare(v) == Bare(v);
  }

  lemma TokenStep(v: Text, sb: Text, u: Text)
    requires TokenPart(v, sb, u) && IsBare(Head(u))
    ensures u != [] && |Tail(u)| < |u| && TokenPart(v, sb + [Head(u)], Tail(u))
  {
    assert u == [u[0]] + u[1..];
    Assoc(sb, [u[0]], u[1..]);
    Assoc(sb, [u[0]], Bare(u[1..]));
  }

  lemma TokenEnd(v: Text, sb: Text, u: Text)
    requires TokenPart(v, sb, u) && !IsBare(Head(u))
    ensures sb == Bare(v) && u == v[|sb|..]
  {
    assert Bare(u) == [];
    assert sb + [] == sb;
  }

  class JSONTokener {
    const lib: Library
    const input: Text       // what the reader holds
    var pos: nat            // how much of it the reader has delivered
    var index: int
    var previous: CodeUnit
    var usePrevious: bool
    var eof: bool
    ghost var taken: bool    // the last character came from the input, not from its end

    ghost predicate Valid()
      reads this
    {
      && pos <= |input|
      && 0 <= index
      && (usePrevious ==> !eof)
      && (taken ==> 0 < pos && previous == input[pos - 1])
      && (!taken && (usePrevious || 0 < index) ==> previous == 0 && pos == |input|)
    }

    /** The text that later reads will deliver. */
    ghost function Unread(): Text
      requires Valid()
      reads this
    {
      if usePrevious then BeforeLast() else input[pos..]
    }

    /** The text that was unread before the last character was taken. */
    ghost function BeforeLast(): Text
      requires Valid()
      reads this
    {
      if taken then input[pos - 1..] else input[pos..]
    }

    constructor (lib: Library, s: Text)
      ensures Valid() && !usePrevious && !eof
      ensures this.lib == lib && input == s && Unread() == s
    {
      this.lib := lib;
      input := s;
      pos, index, previous := 0, 0, 0;
      usePrevious, eof, taken := false, false, false;
    }

    /** Steps back one character. The source refuses it twice in a row and at the start. */
    method Back() returns (ok: bool)
      requires Valid()
      modifies this
      ensures Valid()
      ensures ok <==> !old(usePrevious) && 0 < old(index)
      ensures ok ==> Unread() == old(BeforeLast()) && !eof
      ensures !ok ==> unchanged(this)
    {
      if usePrevious || index <= 0 {
        return false;
      }
      index := index - 1;
      usePrevious := true;
      eof := false;
      return true;
    }

    /** Takes the next character, 0 at the end. */
    method Next() returns (c: CodeUnit)
      requires Valid()
      modifies this
      ensures Valid() && !usePrevious && 0 < index
      ensures c == Head(old(Unread())) && Unread() == Tail(old(Unread()))
      ensures BeforeLast() == old(Unread())
      ensures eof <==> old(eof) || (c == 0 && !old(usePrevious))
    {
      if usePrevious {
        usePrevious := false;
        c := previous;
      } else if pos < |input| {
        c := input[pos];
        pos := pos + 1;
        taken := true;
        if c == 0 {
          eof := true;
        }
      } else {
        c := 0;
        taken := false;
        eof := true;
      }
      index := index + 1;
      previous := c;
    }

    /** Takes the next n characters, which must all be there. */
    method NextN(n: nat) returns (r: Result<Text>)
      requires Valid() && !usePrevious && !eof
      modifies this
      ensures Valid() && !usePrevious
      ensures var u := old(Unread());
              if n <= |u| && 0 !in u[..n]
              then r == Return(u[..n]) && Unread() == u[n..] && !eof
              else r == Throw(SubstringBounds)
    {
      ghost var u := Unread();
      var chars: Text := [];
      while |chars| < n
        invariant Valid() && !usePrevious && !eof
        invariant |chars| <= |u| && |chars| <= n
        invariant chars == u[..|chars|] && Unread() == u[|chars|..] && 0 !in chars
        decreases n - |chars|
      {
        ghost var k := |chars|;
        if k < |u| {
          DropStep(u, k);
          TakeStep(u, k);
        }
        var c := Next();
        if eof {
          assert k < |u| ==> u[k] == 0;
          return Throw(SubstringBounds);
        }
        chars := chars + [c];
      }
      return Return(chars);
    }

    /** Takes the next character above the space, or 0 at the end. */
    method NextClean() returns (c: CodeUnit)
      requires Valid() && !eof
      modifies this
      ensures Valid() && !usePrevious && 0 < index
      ensures var v := SkipBlank(old(Unread()));
              c == Head(v) && Unread() == Tail(v) && BeforeLast() == v
      ensures eof ==> c == 0
    {
      while true
        invariant Valid() && !eof
        invariant SkipBlank(Unread()) == SkipBlank(old(Unread()))
        decreases |Unread()|
      {
        ghost var u := Unread();
        c := Next();
        if c == 0 || c > SPACE {
          return;
        }
        assert u[1..] == Unread();
      }
    }

    /** Takes an escape, after its backslash. */
    method NextEscape() returns (r: Result<CodeUnit>)
      requires Valid() && !usePrevious && !eof
      modifies this
      ensures Valid() && !usePrevious
      ensures Refines(r, Unread(), Escape(lib, old(Unread())))
      ensures r.Return? ==> !eof
    {
      var c := Next();
      if c == LETTER_U {
        var hex := NextN(4);
        if hex.Throw? {
          return Throw(hex.error);
        }
        var n := ParseSigned(lib, hex.value, 16);
        if n.None? {
          return Throw(BadHex);
        }
        return Return(n.value % 0x1_0000);
      }
      var e := ShortEscape(c);
      if e.None? {
        return Throw(IllegalEscape);
      }
      return Return(e.value);
    }

    /** Takes a string, after its opening quote, up to and with the closing one. */
    method NextString(quote: CodeUnit) returns (r: Result<Text>)
      requires Valid() && !usePrevious && !eof
      modifies this
      ensures Valid()
      ensures Refines(r, Unread(), JsonParser.NextString(lib, old(Unread()), quote))
      ensures r.Return? ==> !usePrevious && !eof
    {
      var sb: Text := [];
      PrefixedNothing(JsonParser.NextString(lib, Unread(), quote));
      while true
        invariant Valid() && !usePrevious && !eof
        invariant JsonParser.NextString(lib, old(Unread()), quote)
               == Prefixed(sb, JsonParser.NextString(lib, Unread(), quote))
        decreases |Unread()|
      {
        var c := Next();
        if c == 0 || c == LF || c == CR {
          return Throw(UnterminatedString);
        } else if c == BACKSLASH {
          var e := NextEscape();
          if e.Throw? {
            return Throw(e.error);
          }
          c := e.value;
        } else if c == quote {
          assert sb + [] == sb;
          return Return(sb);
        }
        PrefixedTwice(sb, [c], JsonParser.NextString(lib, Unread(), quote));
        sb := sb + [c];
      }
    }

    /** The loop of `nextValue` over an unquoted token whose first character was just taken. */
    method TakeBare(first: CodeUnit) returns (sb: Text)
      requires Valid() && !usePrevious && 0 < index
      requires first == Head(BeforeLast()) && Unread() == Tail(BeforeLast())
      requires eof ==> first == 0
      modifies this
      ensures Valid() && !eof
      ensures sb == Bare(old(BeforeLast())) && Unread() == old(BeforeLast())[|sb|..]
    {
      hide Bare, IsBare, TokenPart, Head, Tail;
      var c := first;
      ghost var v := BeforeLast();
      sb := [];
      TokenStarts(v);
      while IsBare(c)
        invariant Valid() && !usePrevious && 0 < index
        invariant c == Head(BeforeLast()) && Unread() == Tail(BeforeLast())
        invariant TokenPart(v, sb, BeforeLast())
        decreases |BeforeLast()|
      {
        TokenStep(v, sb, BeforeLast());
        sb := sb + [c];
        c := Next();
      }
      TokenEnd(v, sb, BeforeLast());
      var ok := Back();
      assert ok;
    }

    /** `nextValue`: a quoted string, an object, an array, or an unquoted token. */
    method NextValue() returns (r: Result<Value>)
      requires Valid() && !eof
      modifies this
      ensures Valid()
      ensures Refines(r, Unread(), JsonParser.NextValue(lib, old(Unread())))
      ensures r.Return? ==> !eof
      decreases |Unread()|, 1
    {
      ghost var v := SkipBlank(Unread());
      var c := NextClean();
      if c == QUOTE || c == APOSTROPHE {
        var s := NextString(c);
        return if s.Return? then Return(Str(s.value)) else Throw(s.error);
      } else if c == OPEN_BRACE {
        var ok := Back();
        assert ok;
        r := ReadObject();
        return;
      } else if c == OPEN_BRACKET {
        var ok := Back();
        assert ok;
        r := ReadArray();
        return;
      }
      var sb := TakeBare(c);
      var token := Trim(sb);
      if token == [] {
        return Throw(MissingValue);
      }
      return Return(StringToValue(lib, token));
    }

    /** The constructor `JSONObject(JSONTokener)`. */
    method ReadObject() returns (r: Result<Value>)
      requires Valid() && !eof
      modifies this
      ensures Valid()
      ensures Refines(r, Unread(), ParseObject(lib, old(Unread())))
      ensures r.Return? ==> !eof
      decreases |Unread()|, 0
    {
      var c := NextClean();
      if c != OPEN_BRACE {
        return Throw(ObjectBegin);
      }
      var m: map<Text, Value> := map[];
      while true
        invariant Valid() && !eof
        invariant |Unread()| < old(|Unread()|)
        invariant ParseObject(lib, old(Unread())) == ObjectRest(lib, Unread(), m)
        decreases |Unread()|
      {
        c := NextClean();
        if c == 0 {
          return Throw(ObjectEnd);
        } else if c == CLOSE_BRACE {
          return Return(Obj(m));
        }
        var ok := Back();
        assert ok;
        var pair := ReadPair();
        if pair.Throw? {
          return Throw(pair.error);
        }
        var (key, value) := pair.value;
        if key in m {
          return Throw(DuplicateKey(key));
        }
        m := m[key := value];
        var closed := ReadItemEnd(CLOSE_BRACE, PairSeparator);
        if closed.Throw? {
          return Throw(closed.error);
        }
        if closed.value {
          return Return(Obj(m));
        }
      }
    }

    /** The part of that loop that takes a key, the sign after it, and the value. */
    method ReadPair() returns (r: Result<(Text, Value)>)
      requires Valid() && !eof
      modifies this
      ensures Valid()
      ensures Refines(r, Unread(), Pair(lib, old(Unread())))
      ensures r.Return? ==> !eof
      decreases |Unread()|, 2
    {
      var k := NextValue();
      if k.Throw? {
        return Throw(k.error);
      }
      var key := ToText(lib, k.value);
      var colon := ReadKeySeparator();
      if colon.Throw? {
        return Throw(colon.error);
      }
      var x := NextValue();
      if x.Throw? {
        return Throw(x.error);
      }
      return Return((key, x.value));
    }

    /** The part of that loop that takes the sign between a key and its value. */
    method ReadKeySeparator() returns (r: Result<()>)
      requires Valid() && !eof
      modifies this
      ensures Valid()
      ensures Refines(r, Unread(), KeySeparator(old(Unread())))
      ensures r.Return? ==> !eof
    {
      var c := NextClean();
      if c == EQUALS {
        c := Next();
        if c != GREATER {
          var ok := Back();
          assert ok;
        }
      } else if c != COLON {
        return Throw(KeyColon);
      }
      return Return(());
    }

    /** The end of both constructor loops: a separator, the closing bracket, or both. */
    method ReadItemEnd(close: CodeUnit, error: Error) returns (r: Result<bool>)
      requires Valid() && !eof && close != 0
      modifies this
      ensures Valid()
      ensures Refines(r, Unread(), ItemEnd(old(Unread()), close, error))
      ensures r.Return? ==> !eof
    {
      var c := NextClean();
      if IsSeparator(c) {
        c := NextClean();
        if c == close {
          return Return(true);
        }
        var ok := Back();
        assert ok;
        return Return(false);
      } else if c == close {
        return Return(true);
      }
      return Throw(error);
    }

    /** The constructor `JSONArray(JSONTokener)`. */
    method ReadArray() returns (r: Result<Value>)
      requires Valid() && !eof
      modifies this
      ensures Valid()
      ensures Refines(r, Unread(), ParseArray(lib, old(Unread())))
      ensures r.Return? ==> !eof
      decreases |Unread()|, 0
    {
      var c := NextClean();
      if c != OPEN_BRACKET {
        return Throw(ArrayBegin);
      }
      c := NextClean();
      if c == CLOSE_BRACKET {
        return Return(Arr([]));
      }
      var ok := Back();
      assert ok;
      var items: seq<Value> := [];
      while true
        invariant Valid() && !eof
        invariant |Unread()| < old(|Unread()|)
        invariant ParseArray(lib, old(Unread())) == ArrayRest(lib, Unread(), items)
        decreases |Unread()|
      {
        var x := ReadElement();
        if x.Throw? {
          return Throw(x.error);
        }
        items := items + [x.value];
        var closed := ReadItemEnd(CLOSE_BRACKET, ArraySeparator);
        if closed.Throw? {
          return Throw(closed.error);
        }
        if closed.value {
          return Return(Arr(items));
        }
      }
    }

    /** The part of that loop that takes one element. */
    method ReadElement() returns (r: Result<Value>)
      requires Valid() && !eof
      modifies this
      ensures Valid()
      ensures Refines(r, Unread(), Element(lib, old(Unread())))
      ensures r.Return? ==> !eof
      decreases |Unread()|, 2
    {
      var c := NextClean();
      var ok := Back();
      assert ok;
      if c == COMMA {
        return Return(Null);
      }
      r := NextValue();
    }
  }

  /** `new JSONObject(String)`. */
  method ObjectOfText(lib: Library, s: Text) returns (r: Result<Value>)
    ensures exists rest :: Refines(r, rest, ParseObject(lib, s))
  {
    var x := new JSONTokener(lib, s);
    r := x.ReadObject();
  }
}
