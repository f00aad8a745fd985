/**
 Answers to reset as they are written, by clause 8.2 of ISO/IEC 7816-3:2006, and what the
 decoder makes of them.
 */
module AtrText {
  import opened Options
  import opened Sequences
  import opened ByteStrings
  import opened AtrDecoder

  /** One group of interface characters; k is the protocol in the lower half of TD. */
  datatype Group = Group(ta: Option<Byte>, tb: Option<Byte>, tc: Option<Byte>, k: Option<nat>)

  /** The Y that announces a group. */
  function Announces(g: Group): (y: nat)
    ensures y < 16
  {
    (if g.ta.Some? then 1 else 0) + (if g.tb.Some? then 2 else 0) + (if g.tc.Some? then 4 else 0)
    + (if g.k.Some? then 8 else 0)
  }

  /**
   A list of groups that can be written: each but the last has a TD that announces the next one,
   and a group without characters is not announced.
   */
  predicate Writable(gs: seq<Group>) {
    && gs != []
    && (gs[0].k.Some? ==> gs[0].k.value < 16)
    && (|gs| > 1 ==> gs[0].k.Some? && Announces(gs[1]) != 0 && Writable(gs[1..]))
  }

  function One(b: Option<Byte>): Bytes {
    if b.Some? then [b.value] else []
  }

  /** The first group of the list, with the Y of the second in its TD. */
  function GroupBytes(gs: seq<Group>): Bytes
    requires Writable(gs)
  {
    One(gs[0].ta) + One(gs[0].tb) + One(gs[0].tc) + One(TdByte(gs))
  }

  function TdByte(gs: seq<Group>): Option<Byte>
    requires Writable(gs)
  {
    if gs[0].k.None? then None
    else Some(16 * (if |gs| > 1 then Announces(gs[1]) else 0) + gs[0].k.value)
  }

  function GroupsText(gs: seq<Group>): Bytes
    requires Writable(gs)
  {
    GroupBytes(gs) + if |gs| > 1 then GroupsText(gs[1..]) else []
  }

  /** TS, T0 with the number of historical bytes, the groups, and what follows them. */
  function AtrBytes(ts: Byte, historical: nat, gs: seq<Group>, tail: Bytes): Bytes
    requires Writable(gs) && historical < 16
  {
    [ts, 16 * Announces(gs[0]) + historical] + GroupsText(gs) + tail
  }

  // ---------- what the groups say ----------

  /** The protocol of a number: T=0, T=1 and T=15 have names. */
  function NamedBy(k: nat): set<Protocol> {
    if k == 0 then {T0} else if k == 1 then {T1} else if k == 15 then {T15} else {}
  }

  /** The protocols that the groups name. */
  function NamesIn(gs: seq<Group>): set<Protocol> {
    if gs == [] then {}
    else (if gs[0].k.Some? then NamedBy(gs[0].k.value) else {}) + NamesIn(gs[1..])
  }

  /** The number of the start protocol: that of TA of the second group, of the first TD, or 0. */
  function StartNumber(gs: seq<Group>): nat
    requires Writable(gs)
  {
    if |gs| > 1 && gs[1].ta.Some? then gs[1].ta.value % 16
    else if gs[0].k.Some? then gs[0].k.value
    else 0
  }

  /** What is on offer: TA of the second group forgets the protocols named before it and with it. */
  function OfferIn(gs: seq<Group>): set<Protocol>
    requires Writable(gs)
  {
    if gs[0].k.None? then {T0}
    else if |gs| > 1 && gs[1].ta.Some? then NamedBy(gs[1].ta.value % 16) + NamesIn(gs[2..])
    else NamesIn(gs)
  }

  // ---------- the decoder finds the groups ----------

  /** The characters of the first group stand where they were written. */
  lemma GroupFound(pre: Bytes, gs: seq<Group>, more: Bytes)
    requires Writable(gs) && |pre + GroupBytes(gs) + more| >= |pre| + 4
    ensures var atr := pre + GroupBytes(gs) + more;
            && Ta(atr, |pre|, Announces(gs[0])) == gs[0].ta
            && Td(atr, |pre|, Announces(gs[0])) == TdByte(gs)
            && GroupSize(Announces(gs[0])) == |GroupBytes(gs)|
  {
    var atr := pre + GroupBytes(gs) + more;
    var g := gs[0];
    var y := Announces(g);
    BitsAnnounce(g);
    assert |GroupBytes(gs)| == GroupSize(y);
    assert forall i :: 0 <= i < |GroupBytes(gs)| ==> atr[|pre| + i] == GroupBytes(gs)[i];
    hide Announces, Bit, GroupSize;
  }

  lemma BitsAnnounce(g: Group)
    ensures var y := Announces(g);
            && (Bit(y, 0) == 1 <==> g.ta.Some?) && (Bit(y, 1) == 1 <==> g.tb.Some?)
            && (Bit(y, 2) == 1 <==> g.tc.Some?) && (Bit(y, 3) == 1 <==> g.k.Some?)
  {
  }

  lemma NextAnnounced(gs: seq<Group>)
    requires Writable(gs)
    ensures NextY(TdByte(gs)) == if |gs| > 1 then Announces(gs[1]) else 0
    ensures TdByte(gs).Some? ==> TdByte(gs).value % 16 == gs[0].k.value
  {
  }

  /** One group of those that end and of what they name. */
  lemma FirstGroup(atr: Bytes, p: nat, y: Byte, td: Option<Byte>, q: nat)
    requires p <= MAX_ATR_SIZE && MAX_ATR_SIZE + 4 <= |atr| && td == Td(atr, p, y) && q == p + GroupSize(y)
    ensures Ends(atr, p, y) <==> q <= MAX_ATR_SIZE && (NextY(td) == 0 || Ends(atr, q, NextY(td)))
    ensures q <= MAX_ATR_SIZE ==>
              Named(atr, p, y) == (if td.Some? then SetOf(ProtocolOf(td.value)) else {})
                                  + if NextY(td) != 0 then Named(atr, q, NextY(td)) else {}
  {
  }

  lemma NamesStep(gs: seq<Group>)
    requires Writable(gs)
    ensures NamesIn(gs) == (if TdByte(gs).Some? then SetOf(ProtocolOf(TdByte(gs).value)) else {})
                           + if |gs| > 1 then NamesIn(gs[1..]) else {}
  {
    NextAnnounced(gs);
  }

  lemma {:induction false} GroupsFound(pre: Bytes, gs: seq<Group>, tail: Bytes)
    requires Writable(gs) && |pre| <= MAX_ATR_SIZE && MAX_ATR_SIZE + 4 <= |pre + GroupsText(gs) + tail|
    ensures var atr := pre + GroupsText(gs) + tail;
            && (Ends(atr, |pre|, Announces(gs[0])) <==> |pre + GroupsText(gs)| <= MAX_ATR_SIZE)
            && (|pre + GroupsText(gs)| <= MAX_ATR_SIZE ==> Named(atr, |pre|, Announces(gs[0])) == NamesIn(gs))
    decreases |gs|
  {
    hide GroupBytes, GroupsText, Announces, TdByte, GroupSize, Ta, Td, Ends, Named, NamesIn, SetOf, ProtocolOf, NextY;
    var atr := pre + GroupsText(gs) + tail;
    var b, y := GroupBytes(gs), Announces(gs[0]);
    TextSplits(pre, gs, tail);
    GroupFound(pre, gs, MoreText(gs) + tail);
    NextAnnounced(gs);
    FirstGroup(atr, |pre|, y, TdByte(gs), |pre + b|);
    NamesStep(gs);
    if |gs| > 1 && |pre + b| <= MAX_ATR_SIZE {
      TextStep(gs);
      Assoc(pre, b, GroupsText(gs[1..]));
      GroupsFound(pre + b, gs[1..], tail);
    }
  }

  function MoreText(gs: seq<Group>): Bytes
    requires Writable(gs)
  {
    if |gs| > 1 then GroupsText(gs[1..]) else []
  }

  lemma TextSplits(pre: Bytes, gs: seq<Group>, tail: Bytes)
    requires Writable(gs)
    ensures pre + GroupsText(gs) + tail == pre + GroupBytes(gs) + (MoreText(gs) + tail)
    ensures pre + (GroupsText(gs) + tail) == pre + GroupBytes(gs) + (MoreText(gs) + tail)
    ensures |GroupsText(gs)| == |GroupBytes(gs)| + |MoreText(gs)|
  {
    if |gs| == 1 {
      LastText(gs);
    }
    hide GroupBytes, Writable;
    var b, x := GroupBytes(gs), MoreText(gs);
    assert GroupsText(gs) == b + x;
    hide GroupsText, MoreText;
    Assoc(pre, b, x);
    Assoc(pre + b, x, tail);
    Assoc(pre, b + x, tail);
  }

  // ---------- the decoder on a written ATR ----------

  /** Y1, TD1, TA2 and the second TD are found where they were written. */
  lemma HeadFound(ts: Byte, historical: nat, gs: seq<Group>, tail: Bytes)
    requires Writable(gs) && historical < 16 && |AtrBytes(ts, historical, gs, tail)| >= MAX_ATR_SIZE + 4
    ensures var atr := AtrBytes(ts, historical, gs, tail);
            && atr[0] == ts && Y1(atr) == Announces(gs[0]) && Td1(atr) == TdByte(gs)
            && GroupSize(Y1(atr)) == |GroupBytes(gs)|
            && Ta2(atr) == (if |gs| > 1 then gs[1].ta else None)
  {
    var atr := AtrBytes(ts, historical, gs, tail);
    var pre := [ts, 16 * Announces(gs[0]) + historical];
    hide GroupBytes, TdByte, GroupSize, GroupsText, Bit;
    var b := GroupBytes(gs);
    TextSplits(pre, gs, tail);
    assert atr[1] == 16 * Announces(gs[0]) + historical;
    GroupFound(pre, gs, MoreText(gs) + tail);
    NextAnnounced(gs);
    BitsAnnounce(Group(None, None, None, None));
    hide Announces, Td;
    if |gs| > 1 {
      TextStep(gs);
      SecondFound(atr, pre + b, gs[1..], tail);
    }
  }

  lemma SecondFound(atr: Bytes, pre: Bytes, gs: seq<Group>, tail: Bytes)
    requires Writable(gs) && atr == pre + (GroupsText(gs) + tail) && |atr| >= |pre| + 4
    ensures Ta(atr, |pre|, Announces(gs[0])) == gs[0].ta && Td(atr, |pre|, Announces(gs[0])) == TdByte(gs)
    ensures GroupSize(Announces(gs[0])) == |GroupBytes(gs)|
  {
    hide GroupBytes, GroupsText, Announces, TdByte, GroupSize, Ta, Td;
    TextSplits(pre, gs, tail);
    GroupFound(pre, gs, MoreText(gs) + tail);
  }

  /**
   The decoder accepts a written ATR exactly if it begins with 3B or 3F, its groups end within
   33 bytes, and the numbers that choose the protocol are 0 or 1.
   */
  lemma WrittenIsDecodable(ts: Byte, historical: nat, gs: seq<Group>, tail: Bytes, length: nat)
    requires Writable(gs) && historical < 16 && |AtrBytes(ts, historical, gs, tail)| >= 37
    ensures Decodable(AtrBytes(ts, historical, gs, tail), length)
            <==> && length >= 2 && ts in {0x3B, 0x3F} && 2 + |GroupsText(gs)| <= 33
                 && (gs[0].k.Some? ==> gs[0].k.value <= 1)
                 && (|gs| > 1 && gs[1].ta.Some? ==> gs[1].ta.value % 16 <= 1)
  {
    HeadFound(ts, historical, gs, tail);
    NextAnnounced(gs);
    var pre := [ts, 16 * Announces(gs[0]) + historical];
    GroupsFound(pre, gs, tail);
    hide GroupsText, GroupBytes, Announces, TdByte, Td1, Ta2, Y1, Ends, Writable;
  }

  /** What it then returns: the start protocol and the offer of the groups. */
  lemma WrittenIsDecoded(ts: Byte, historical: nat, gs: seq<Group>, tail: Bytes, length: nat)
    requires Writable(gs) && historical < 16 && |AtrBytes(ts, historical, gs, tail)| >= 37
    requires Decodable(AtrBytes(ts, historical, gs, tail), length)
    ensures var atr := AtrBytes(ts, historical, gs, tail);
            && StartProtocol(atr) == Some(if StartNumber(gs) == 0 then T0 else T1)
            && Offered(atr) == OfferIn(gs)
  {
    var atr := AtrBytes(ts, historical, gs, tail);
    var pre := [ts, 16 * Announces(gs[0]) + historical];
    WrittenIsDecodable(ts, historical, gs, tail, length);
    HeadFound(ts, historical, gs, tail);
    NextAnnounced(gs);
    GroupsFound(pre, gs, tail);
    if |gs| > 1 {
      LaterOffer(atr, pre, gs, tail);
      OfferOfTwo(atr, gs);
    } else {
      OfferOfOne(atr, gs);
    }
  }

  lemma OfferOfOne(atr: Bytes, gs: seq<Group>)
    requires Writable(gs) && |gs| == 1 && |atr| >= 37 && (gs[0].k.Some? ==> gs[0].k.value <= 1)
    requires Td1(atr) == TdByte(gs) && Ta2(atr).None? && (gs[0].k.Some? ==> Named(atr, 2, Y1(atr)) == NamesIn(gs))
    ensures StartProtocol(atr) == Some(if StartNumber(gs) == 0 then T0 else T1) && Offered(atr) == OfferIn(gs)
  {
    NextAnnounced(gs);
    hide TdByte, Td1, Ta2, Y1, Named, NamesIn, Td, Ta, GroupSize;
  }

  lemma OfferOfTwo(atr: Bytes, gs: seq<Group>)
    requires Writable(gs) && |gs| > 1 && |atr| >= 37 && gs[0].k.value <= 1
    requires gs[1].ta.Some? ==> gs[1].ta.value % 16 <= 1
    requires Td1(atr) == TdByte(gs) && Ta2(atr) == gs[1].ta && Named(atr, 2, Y1(atr)) == NamesIn(gs)
    requires GroupSize(Y1(atr)) == |GroupBytes(gs)| && 2 + |GroupBytes(gs)| <= 33
    requires var q, y2 := 2 + |GroupBytes(gs)|, Announces(gs[1]);
             var td2 := Td(atr, q, y2);
             (if NextY(td2) != 0 then Named(atr, q + GroupSize(y2), NextY(td2)) else {}) == NamesIn(gs[2..])
    ensures StartProtocol(atr) == Some(if StartNumber(gs) == 0 then T0 else T1) && Offered(atr) == OfferIn(gs)
  {
    NextAnnounced(gs);
    TdByteSome(gs);
    hide TdByte, GroupBytes, Td1, Ta2, Y1, Named, NamesIn, Td, Ta, GroupSize, Announces, NextY, Writable;
    hide NamedBy, SetOf, ProtocolOf;
    ProtocolIs(if gs[1].ta.Some? then gs[1].ta.value else TdByte(gs).value);
  }

  lemma ProtocolIs(b: Byte)
    ensures NamedBy(b % 16) == SetOf(ProtocolOf(b))
    ensures b % 16 <= 1 ==> ProtocolOf(b) == Some(if b % 16 == 0 then T0 else T1)
  {
  }

  lemma TdByteSome(gs: seq<Group>)
    requires Writable(gs) && |gs| > 1
    ensures TdByte(gs).Some?
  {
  }

  /** The text of the groups, cut behind the second one. */
  lemma TextOfThree(pre: Bytes, gs: seq<Group>, tail: Bytes)
    requires Writable(gs) && |gs| > 1
    ensures var b, b2 := GroupBytes(gs), GroupBytes(gs[1..]);
            && Writable(gs[1..]) && |pre + GroupsText(gs)| >= |pre + b + b2|
            && pre + GroupsText(gs) + tail == pre + b + (GroupsText(gs[1..]) + tail)
            && (|gs| > 2 ==>
                  && Writable(gs[2..])
                  && pre + GroupsText(gs) == pre + b + b2 + GroupsText(gs[2..])
                  && Announces(gs[2]) != 0)
  {
    TextStep(gs);
    hide GroupBytes, GroupsText, Announces, Writable;
    var b, b2, x := GroupBytes(gs), GroupBytes(gs[1..]), GroupsText(gs[1..]);
    Assoc(pre, b, x);
    Assoc(pre + b, x, tail);
    if |gs| > 2 {
      assert gs[1..][1..] == gs[2..];
      TextStep(gs[1..]);
      Assoc(pre + b, b2, GroupsText(gs[2..]));
    } else {
      LastText(gs[1..]);
    }
  }

  lemma TextStep(gs: seq<Group>)
    requires Writable(gs) && |gs| > 1
    ensures Writable(gs[1..]) && GroupsText(gs) == GroupBytes(gs) + GroupsText(gs[1..]) && Announces(gs[1]) != 0
  {
  }

  lemma LastText(gs: seq<Group>)
    requires Writable(gs) && |gs| == 1
    ensures GroupsText(gs) == GroupBytes(gs)
  {
    assert GroupBytes(gs) + [] == GroupBytes(gs);
  }

  /** What the groups from the third on name. */
  lemma LaterOffer(atr: Bytes, pre: Bytes, gs: seq<Group>, tail: Bytes)
    requires Writable(gs) && |gs| > 1 && atr == pre + GroupsText(gs) + tail && |pre| == 2
    requires |atr| >= 37 && |pre + GroupsText(gs)| <= 33
    ensures var q, y2 := 2 + |GroupBytes(gs)|, Announces(gs[1]);
            && q <= 33
            && var td2 := Td(atr, q, y2);
               (if NextY(td2) != 0 then Named(atr, q + GroupSize(y2), NextY(td2)) else {}) == NamesIn(gs[2..])
  {
    var b, b2 := GroupBytes(gs), GroupBytes(gs[1..]);
    TextOfThree(pre, gs, tail);
    SecondFound(atr, pre + b, gs[1..], tail);
    NextAnnounced(gs[1..]);
    if |gs| > 2 {
      GroupsFound(pre + b + b2, gs[2..], tail);
    } else {
      assert NamesIn(gs[2..]) == {};
    }
    hide Writable, GroupsText, GroupBytes, Announces, TdByte, GroupSize, Td, Named, NamesIn, Ends, NextY;
  }
}
