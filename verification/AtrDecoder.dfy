/**
 `ATRDecodeAtr`: the protocols that an answer to reset offers, and the one to start with.
 */
module AtrDecoder {
  import opened Options
  import opened ByteStrings

  const MAX_ATR_SIZE: nat := 33

  datatype Protocol = T0 | T1 | T15

  // ---------- interface characters, clause 8.2 of ISO/IEC 7816-3:2006 ----------

  function Bit(y: Byte, i: nat): (b: nat)
    requires i < 4
    ensures b <= 1
  {
    if i == 0 then y % 2 else if i == 1 then y / 2 % 2 else if i == 2 then y / 4 % 2 else y / 8 % 2
  }

  /** How many interface characters a group has. */
  function GroupSize(y: Byte): (n: nat)
    ensures n <= 4
  {
    Bit(y, 0) + Bit(y, 1) + Bit(y, 2) + Bit(y, 3)
  }

  /** TA and TD of the group that starts at p, where Y announces them. */
  function Ta(atr: Bytes, p: nat, y: Byte): Option<Byte>
    requires p + 4 <= |atr|
  {
    if Bit(y, 0) == 1 then Some(atr[p]) else None
  }

  function Td(atr: Bytes, p: nat, y: Byte): Option<Byte>
    requires p + 4 <= |atr|
  {
    if Bit(y, 3) == 1 then Some(atr[p + GroupSize(y) - 1]) else None
  }

  function NextY(td: Option<Byte>): Byte {
    if td.Some? then td.value / 16 else 0
  }

  function ProtocolOf(c: Byte): Option<Protocol> {
    if c % 16 == 0 then Some(T0) else if c % 16 == 1 then Some(T1) else if c % 16 == 15 then Some(T15) else None
  }

  function SetOf(p: Option<Protocol>): set<Protocol> {
    if p.Some? then {p.value} else {}
  }

  /** Y1, TD1 and TA2. */
  function Y1(atr: Bytes): Byte
    requires |atr| >= 2
  {
    atr[1] / 16
  }

  function Td1(atr: Bytes): Option<Byte>
    requires |atr| >= 6
  {
    Td(atr, 2, Y1(atr))
  }

  function Ta2(atr: Bytes): Option<Byte>
    requires |atr| >= 10
  {
    Ta(atr, 2 + GroupSize(Y1(atr)), NextY(Td1(atr)))
  }

  /** The groups from p on end before the maximum size. */
  predicate Ends(atr: Bytes, p: nat, y: Byte)
    requires p <= MAX_ATR_SIZE && MAX_ATR_SIZE + 4 <= |atr|
    decreases MAX_ATR_SIZE - p
  {
    var q := p + GroupSize(y);
    q <= MAX_ATR_SIZE
    && (NextY(Td(atr, p, y)) == 0 || Ends(atr, q, NextY(Td(atr, p, y))))
  }

  /** The protocols that the TD characters from p on name. */
  function Named(atr: Bytes, p: nat, y: Byte): set<Protocol>
    requires p <= MAX_ATR_SIZE && MAX_ATR_SIZE + 4 <= |atr|
    decreases MAX_ATR_SIZE - p
  {
    var td := Td(atr, p, y);
    var q := p + GroupSize(y);
    (if td.Some? then SetOf(ProtocolOf(td.value)) else {})
    + (if td.Some? && td.value / 16 != 0 && q <= MAX_ATR_SIZE then Named(atr, q, td.value / 16) else {})
  }

  /** The protocol to start with: that of TA2, else of TD1, else T=0. */
  function StartProtocol(atr: Bytes): Option<Protocol>
    requires |atr| >= 10
  {
    if Ta2(atr).Some? then ProtocolOf(Ta2(atr).value)
    else if Td1(atr).Some? then ProtocolOf(Td1(atr).value)
    else Some(T0)
  }

  /**
   The protocols on offer: TA2 puts the card in specific mode, which forgets what TD1 and TD2
   named; the TD characters of later groups still add to it.
   */
  function Offered(atr: Bytes): set<Protocol>
    requires MAX_ATR_SIZE + 4 <= |atr|
  {
    var q := 2 + GroupSize(Y1(atr));
    var y2 := NextY(Td1(atr));
    if Td1(atr).None? then {T0}
    else if Ta2(atr).None? then Named(atr, 2, Y1(atr))
    else SetOf(StartProtocol(atr)) + if NextY(Td(atr, q, y2)) != 0 then Named(atr, q + GroupSize(y2), NextY(Td(atr, q, y2))) else {}
  }

  predicate IsT0OrT1(c: Byte) {
    ProtocolOf(c) == Some(T0) || ProtocolOf(c) == Some(T1)
  }

  predicate IfAnyT0OrT1(c: Option<Byte>) {
    c.Some? ==> IsT0OrT1(c.value)
  }

  /** The answers to reset that the decoder accepts. */
  predicate Decodable(atr: Bytes, length: nat)
    requires MAX_ATR_SIZE + 4 <= |atr|
  {
    && length >= 2 && (atr[0] == 0x3F || atr[0] == 0x3B)
    && IfAnyT0OrT1(Td1(atr)) && IfAnyT0OrT1(Ta2(atr))
    && Ends(atr, 2, Y1(atr))
  }

  // ---------- the loop as a recursion ----------

  /** What the two output parameters hold. */
  datatype Protocols = Protocols(available: set<Protocol>, current: Option<Protocol>)

  /** A TD character adds its protocol, and the first one is also the current protocol. */
  function AfterTd(s: Protocols, td: Option<Byte>): Option<Protocols> {
    if td.None? then Some(s)
    else if s.current.None? && !IsT0OrT1(td.value) then None
    else Some(Protocols(
      s.available + SetOf(ProtocolOf(td.value)),
      if s.current.None? then ProtocolOf(td.value) else s.current))
  }

  /** TA2 replaces both. */
  function AfterTa(s: Protocols, i: nat, ta: Option<Byte>): Option<Protocols> {
    if i != 2 || ta.None? then Some(s)
    else if !IsT0OrT1(ta.value) then None
    else Some(Protocols(SetOf(ProtocolOf(ta.value)), ProtocolOf(ta.value)))
  }

  function AfterGroup(s: Protocols, i: nat, ta: Option<Byte>, td: Option<Byte>): Option<Protocols> {
    if AfterTd(s, td).None? then None else AfterTa(AfterTd(s, td).value, i, ta)
  }

  /** The outcome of the loop from group i, which starts at p. */
  function Groups(atr: Bytes, p: nat, y: Byte, i: nat, s: Protocols): Option<Protocols>
    requires p <= MAX_ATR_SIZE && MAX_ATR_SIZE + 4 <= |atr|
    decreases MAX_ATR_SIZE - p
  {
    var next := AfterGroup(s, i, Ta(atr, p, y), Td(atr, p, y));
    var q := p + GroupSize(y);
    if next.None? || q > MAX_ATR_SIZE then None
    else if NextY(Td(atr, p, y)) == 0 then next
    else Groups(atr, q, NextY(Td(atr, p, y)), i + 1, next.value)
  }

  /** From the third group on the current protocol stays and every TD adds to the offer. */
  lemma {:induction false} LaterGroups(atr: Bytes, p: nat, y: Byte, i: nat, s: Protocols)
    requires p <= MAX_ATR_SIZE && MAX_ATR_SIZE + 4 <= |atr| && i >= 3 && s.current.Some?
    ensures Groups(atr, p, y, i, s) ==
            if Ends(atr, p, y) then Some(s.(available := s.available + Named(atr, p, y))) else None
    decreases MAX_ATR_SIZE - p
  {
    var td, q := Td(atr, p, y), p + GroupSize(y);
    var next := AfterGroup(s, i, Ta(atr, p, y), td);
    if q <= MAX_ATR_SIZE && NextY(td) != 0 {
      LaterGroups(atr, q, NextY(td), i + 1, next.value);
      assert next.value.available + Named(atr, q, NextY(td)) == s.available + Named(atr, p, y);
    } else {
      assert NextY(td) == 0 ==> next.value.available == s.available + Named(atr, p, y);
    }
  }

  /** The second group, after a TD1 that named T=0 or T=1. */
  lemma SecondGroup(atr: Bytes, p: nat, y: Byte, s: Protocols)
    requires p <= MAX_ATR_SIZE && MAX_ATR_SIZE + 4 <= |atr| && s.current.Some?
    ensures var ta := Ta(atr, p, y);
            var td := Td(atr, p, y);
            Groups(atr, p, y, 2, s) ==
            if !Ends(atr, p, y) || !IfAnyT0OrT1(ta) then None
            else if ta.None? then Some(s.(available := s.available + Named(atr, p, y)))
            else Some(Protocols(
              SetOf(ProtocolOf(ta.value)) + if NextY(td) != 0 then Named(atr, p + GroupSize(y), NextY(td)) else {},
              ProtocolOf(ta.value)))
  {
    var ta, td, q := Ta(atr, p, y), Td(atr, p, y), p + GroupSize(y);
    var next := AfterGroup(s, 2, ta, td);
    if next.Some? && q <= MAX_ATR_SIZE && NextY(td) != 0 {
      LaterGroups(atr, q, NextY(td), 3, next.value);
      if ta.None? {
        assert next.value.available + Named(atr, q, NextY(td)) == s.available + Named(atr, p, y);
      }
    } else if ta.None? {
      assert NextY(td) == 0 ==> next.value.available == s.available + Named(atr, p, y);
    } else if next.Some? {
      assert next.value.available + {} == next.value.available;
    }
  }

  /** Without any TD the protocol is T=0. */
  function OrT0(s: Protocols): Protocols {
    if s.current.None? then Protocols(s.available + {T0}, Some(T0)) else s
  }

  /** The whole loop. */
  function Run(atr: Bytes): Option<Protocols>
    requires MAX_ATR_SIZE + 4 <= |atr|
  {
    Groups(atr, 2, Y1(atr), 1, Protocols({}, None))
  }

  /** Without TD1 there is only one group, and none of its characters matters. */
  lemma WithoutTd1(atr: Bytes)
    requires MAX_ATR_SIZE + 4 <= |atr| && Td1(atr).None?
    ensures Run(atr) == Some(Protocols({}, None)) && Ends(atr, 2, Y1(atr)) && Ta2(atr).None?
    ensures Offered(atr) == {T0} && StartProtocol(atr) == Some(T0)
  {
  }

  /** A TD1 that announces no second group. */
  lemma OnlyTd1(atr: Bytes)
    requires MAX_ATR_SIZE + 4 <= |atr| && Td1(atr).Some? && NextY(Td1(atr)) == 0
    ensures Ends(atr, 2, Y1(atr)) && Ta2(atr).None?
    ensures var p := ProtocolOf(Td1(atr).value);
            && Run(atr) == (if IsT0OrT1(Td1(atr).value) then Some(Protocols(SetOf(p), p)) else None)
            && Offered(atr) == SetOf(p) && StartProtocol(atr) == p
  {
    var p := ProtocolOf(Td1(atr).value);
    assert {} + SetOf(p) == SetOf(p) == SetOf(p) + {};
  }

  /** A TD1 that announces a second group: the run goes on behind it. */
  lemma Td1ThenMore(atr: Bytes)
    requires MAX_ATR_SIZE + 4 <= |atr| && NextY(Td1(atr)) != 0
    ensures var q, y2, p := 2 + GroupSize(Y1(atr)), NextY(Td1(atr)), ProtocolOf(Td1(atr).value);
            && Run(atr) == (if IsT0OrT1(Td1(atr).value) then Groups(atr, q, y2, 2, Protocols(SetOf(p), p)) else None)
            && (Ends(atr, 2, Y1(atr)) <==> Ends(atr, q, y2))
            && Named(atr, 2, Y1(atr)) == SetOf(p) + Named(atr, q, y2)
            && Ta2(atr) == Ta(atr, q, y2)
  {
    var p := ProtocolOf(Td1(atr).value);
    assert {} + SetOf(p) == SetOf(p);
  }

  lemma TdAnnounces(td: Option<Byte>)
    requires NextY(td) != 0
    ensures td.Some?
  {
  }

  /** Start and offer with a second group. */
  lemma StartAndOffer(atr: Bytes)
    requires MAX_ATR_SIZE + 4 <= |atr| && NextY(Td1(atr)) != 0
    ensures var q, y2 := 2 + GroupSize(Y1(atr)), NextY(Td1(atr));
            && StartProtocol(atr) == ProtocolOf(if Ta2(atr).Some? then Ta2(atr).value else Td1(atr).value)
            && Offered(atr) == if Ta2(atr).None? then Named(atr, 2, Y1(atr))
                               else SetOf(ProtocolOf(Ta2(atr).value))
                                    + if NextY(Td(atr, q, y2)) != 0 then Named(atr, q + GroupSize(y2), NextY(Td(atr, q, y2))) else {}
  {
  }

  /** With a second group TA2 decides, if it is there. */
  lemma WithSecondGroup(atr: Bytes)
    requires MAX_ATR_SIZE + 4 <= |atr| && NextY(Td1(atr)) != 0
    ensures Run(atr) == if IfAnyT0OrT1(Td1(atr)) && IfAnyT0OrT1(Ta2(atr)) && Ends(atr, 2, Y1(atr))
                        then Some(Protocols(Offered(atr), StartProtocol(atr))) else None
  {
    Td1ThenMore(atr);
    StartAndOffer(atr);
    hide Groups, Ends, Named, GroupSize, Y1, Td1, Ta2, Ta, Td, Run, Offered, StartProtocol, NextY, SetOf, ProtocolOf, AfterTd, AfterTa, AfterGroup, Bit;
    TdAnnounces(Td1(atr));
    var p := ProtocolOf(Td1(atr).value);
    if IsT0OrT1(Td1(atr).value) {
      SecondGroup(atr, 2 + GroupSize(Y1(atr)), NextY(Td1(atr)), Protocols(SetOf(p), p));
    }
  }

  /** What the loop as a whole computes, in terms of TD1, TA2 and the later TD characters. */
  lemma AllGroups(atr: Bytes)
    requires MAX_ATR_SIZE + 4 <= |atr|
    ensures Run(atr).Some? <==> IfAnyT0OrT1(Td1(atr)) && IfAnyT0OrT1(Ta2(atr)) && Ends(atr, 2, Y1(atr))
    ensures Run(atr).Some? ==> OrT0(Run(atr).value) == Protocols(Offered(atr), StartProtocol(atr))
  {
    hide Run, Ends, Offered, Named, Y1, Td1, Ta2, StartProtocol;
    if Td1(atr).None? {
      WithoutTd1(atr);
      assert {} + {T0} == {T0};
    } else if NextY(Td1(atr)) == 0 {
      OnlyTd1(atr);
    } else {
      WithSecondGroup(atr);
      StartIsSome(atr);
    }
  }

  lemma StartIsSome(atr: Bytes)
    requires MAX_ATR_SIZE + 4 <= |atr|
    ensures IfAnyT0OrT1(Td1(atr)) && IfAnyT0OrT1(Ta2(atr)) ==> StartProtocol(atr).Some?
  {
  }

  /** A start protocol is always on offer, and it is T=0 or T=1. */
  lemma StartIsOffered(atr: Bytes)
    requires MAX_ATR_SIZE + 4 <= |atr| && IfAnyT0OrT1(Td1(atr)) && IfAnyT0OrT1(Ta2(atr))
    ensures StartProtocol(atr) == Some(T0) || StartProtocol(atr) == Some(T1)
    ensures StartProtocol(atr).value in Offered(atr)
  {
  }

  // ---------- the decoder ----------

  /** The reads of one group: TA, TB, TC and TD where Y announces them. */
  method ReadGroup(atr: array<Byte>, start: nat, y: Byte) returns (ta: Option<Byte>, td: Option<Byte>, p: nat)
    requires start + 4 <= atr.Length
    ensures ta == Ta(atr[..], start, y) && td == Td(atr[..], start, y) && p == start + GroupSize(y)
    ensures td.Some? ==> p > start
  {
    p := start;
    ta, td := None, None;
    if y % 2 == 1 {
      ta, p := Some(atr[p]), p + 1;
    }
    if y / 2 % 2 == 1 {
      p := p + 1;
    }
    if y / 4 % 2 == 1 {
      p := p + 1;
    }
    if y / 8 % 2 == 1 {
      td, p := Some(atr[p]), p + 1;
    }
  }

  /** The examination of a TD character, which also gives the Y of the next group. */
  method ExamineTd(td: Option<Byte>, available0: set<Protocol>, current0: Option<Protocol>)
    returns (ok: bool, y: Byte, available: set<Protocol>, current: Option<Protocol>)
    ensures y == NextY(td) || !ok
    ensures AfterTd(Protocols(available0, current0), td) == if ok then Some(Protocols(available, current)) else None
  {
    ok, y, available, current := true, 0, available0, current0;
    if td.Some? {
      y := td.value / 16;
      var t := td.value % 16;
      if current == None {
        match t {
          case 0 => current := Some(T0);
          case 1 => current := Some(T1);
          case _ =>
            return false, y, available, current;
        }
      }
      if t == 0 {
        available := available + {T0};
      } else if t == 1 {
        available := available + {T1};
      } else if t == 15 {
        available := available + {T15};
      }
      assert available == available0 + SetOf(ProtocolOf(td.value));
    }
  }

  /**
   `ATRDecodeAtr`. The source reads up to four characters behind the maximum size before it
   gives up, so that many must be readable.
   */
  method Decode(atr: array<Byte>, length: nat)
    returns (result: int, available: set<Protocol>, current: Option<Protocol>)
    requires MAX_ATR_SIZE + 4 <= atr.Length
    ensures result == if Decodable(atr[..], length) then 1 else 0
    ensures result == 1 ==> current == StartProtocol(atr[..]) && available == Offered(atr[..])
    ensures result == 1 ==> current == Some(T0) || current == Some(T1)
    ensures result == 1 ==> current.value in available
  {
    hide Ends, Offered, StartProtocol, Named, AfterTd, Ta, Td, Td1, Ta2, GroupSize, Bit;
    available, current := {}, None;
    if length < 2 {
      return 0, available, current;
    }
    if atr[0] != 0x3F && atr[0] != 0x3B {
      return 0, available, current;
    }
    ghost var all := atr[..];
    AllGroups(all);
    var y: Byte := atr[1] / 16;
    var p := 2;
    var i := 1;
    var more := true;
    ghost var whole := Run(all);
    while more
      invariant p <= MAX_ATR_SIZE && i >= 1 && all == atr[..]
      invariant whole == if more then Groups(all, p, y, i, Protocols(available, current))
                         else Some(Protocols(available, current))
      decreases more, MAX_ATR_SIZE - p
    {
      var ta, td, q := ReadGroup(atr, p, y);
      var ok: bool;
      ok, y, available, current := ExamineTd(td, available, current);
      if !ok {
        return 0, available, current;
      }
      if i == 2 && ta.Some? {
        match ta.value % 16 {
          case 0 => current, available := Some(T0), {T0};
          case 1 => current, available := Some(T1), {T1};
          case _ =>
            return 0, available, current;
        }
      }
      p := q;
      if p > MAX_ATR_SIZE {
        return 0, available, current;
      }
      i := i + 1;
      more := y != 0;
    }
    if current == None {
      current := Some(T0);
      available := available + {T0};
    }
    StartIsOffered(all);
    return 1, available, current;
  }
}
