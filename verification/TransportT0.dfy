/**
 The T=0 branch of `OPGP_PL_send_APDU`: the response of a card is collected piece by piece
 with GET RESPONSE, against any card that follows clause 12.2 of ISO/IEC 7816-3:2006, and also
 cards that announce their response by 9000.
 */
module TransportT0 {
  import opened Options
  import opened Sequences
  import opened ByteStrings
  import opened SecureMessaging

  const MORE_DATA: Byte := 0x61
  const WRONG_LENGTH: Byte := 0x6C
  const MORE_DATA_GSM: Byte := 0x9F
  const NORMAL: Byte := 0x90
  const GET_RESPONSE: Bytes := [0x00, 0xC0, 0x00, 0x00]

  /** The status word by which the host tells a card that does not know GET RESPONSE. */
  const CLASS_NOT_SUPPORTED: Bytes := [0x6E, 0x00]

  // ---------- the card ----------

  /** A status word that ends an answer: none that announces or asks for anything. */
  predicate FinalStatus(sw: Bytes) {
    |sw| == 2 && sw[0] !in {0x61, 0x6C, 0x9F}
  }

  /**
   What a card is to receive and to answer: the bytes of the command without the Le of case 4,
   that Le, whether data may come with the first answer (case 2), the response, the status word
   behind it, and the one that a card with nothing left gives to GET RESPONSE.
   */
  datatype CardSpec = CardSpec(
    command: Bytes, le: Option<Byte>, asksForData: bool, response: Bytes, finalSw: Bytes, idleSw: Bytes)

  /** Where a card stands. */
  datatype CardState = CardState(
    rest: Bytes,     // what it still holds
    begun: bool,     // the command itself was answered
    refused: bool,   // a length was refused by 6Cxx
    owed: bool,      // it was too short, so the whole response is owed in one piece
    asked: bool,     // GET RESPONSE was sent
    atOnce: bool,    // the first GET RESPONSE got all there was
    firstSw: Bytes,  // the status word of the answer to the command
    lastSw: Bytes)   // the last status word it sent

  function Initial(k: CardSpec): CardState {
    CardState(k.response, false, false, false, false, false, [], [])
  }

  predicate ValidSpec(k: CardSpec) {
    && FinalStatus(k.finalSw) && FinalStatus(k.idleSw) && |k.command| >= 4
    && (k.asksForData ==> |k.command| == 5 && k.le.None?)
  }

  predicate ValidState(k: CardSpec, s: CardState) {
    && ValidSpec(k)
    && (!s.begun ==> s.rest == k.response && !s.asked && (s.lastSw == [] || (|s.lastSw| == 2 && s.lastSw[0] == 0x6C)))
    && (!s.begun && s.lastSw != [] ==> k.asksForData && s.refused)
    && (!s.begun && s.owed ==> s.lastSw != [] && LengthOf(s.lastSw[1]) == |s.rest|)
    && (s.owed && s.begun ==> s.rest == [])
    && (s.begun ==> |s.lastSw| == 2)
    && (s.begun && !s.asked && !k.asksForData ==> s.rest == k.response)
    && (s.atOnce ==> s.asked)
  }

  /** The length that GET RESPONSE is to ask for: what was announced, at first not more than Le. */
  function RequestedLength(k: CardSpec, s: CardState): Byte
    requires |s.lastSw| == 2
  {
    if !s.asked && k.le.Some? then
      if s.lastSw[0] == 0x61 && LengthOf(s.lastSw[1]) < LengthOf(k.le.value) then s.lastSw[1] else k.le.value
    else s.lastSw[1]
  }

  /**
   What the host has to send: the whole command, the header with the demanded length behind
   6Cxx, and otherwise GET RESPONSE; where the response is gone any length will do.
   */
  predicate Expects(k: CardSpec, s: CardState, capdu: Bytes)
    requires ValidState(k, s)
  {
    if s.lastSw == [] then capdu == k.command
    else if s.lastSw[0] == 0x6C then
      capdu == (if s.begun then [0x00, 0xC0, 0x00, 0x00] else k.command[..4]) + [s.lastSw[1]]
    else
      && |capdu| == 5 && capdu[..4] == [0x00, 0xC0, 0x00, 0x00]
      && (!s.asked || s.rest != [] ==> capdu[4] == RequestedLength(k, s))
  }

  /** How many bytes the host asks for. */
  function Wanted(k: CardSpec, s: CardState, capdu: Bytes): nat
    requires ValidState(k, s) && Expects(k, s, capdu)
  {
    if s.begun || k.asksForData then LengthOf(capdu[4]) else 0
  }

  /** A card with nothing left answers GET RESPONSE. */
  predicate Idles(k: CardSpec, s: CardState, piece: Bytes, sw: Bytes, t: CardState) {
    s.begun && s.rest == [] && piece == [] && sw == k.idleSw && t == s.(asked := true, lastSw := sw)
  }

  /** A card demands a longer length, once and exactly, or any shorter one. */
  predicate Refuses(k: CardSpec, s: CardState, n: nat, piece: Bytes, sw: Bytes, t: CardState) {
    && (s.begun || k.asksForData) && !s.owed && s.rest != [] && piece == []
    && |sw| == 2 && sw[0] == 0x6C
    && (|| (!s.begun && !s.refused && n < |s.rest| == LengthOf(sw[1])
            && t == s.(refused := true, owed := true, lastSw := sw))
        || (LengthOf(sw[1]) < n && t == s.(refused := true, asked := s.asked || s.begun, lastSw := sw)))
  }

  /**
   A card answers: with a piece of at most n bytes, which is not empty behind GET RESPONSE. It
   announces some of what is left by 61xx, or answers a command without Le by 90xx all the same.
   */
  predicate Hands(k: CardSpec, s: CardState, n: nat, piece: Bytes, sw: Bytes, t: CardState) {
    && (s.begun ==> s.rest != [] && piece != []) && (s.owed ==> t.rest == [])
    && |piece| <= n && s.rest == piece + t.rest && |sw| == 2
    && (if t.rest == [] then sw == k.finalSw
        else
          || (sw[0] == 0x61 && LengthOf(sw[1]) <= |t.rest|)
          || (sw[0] == 0x90 && !s.begun && !k.asksForData))
    && t == CardState(
      t.rest, true, s.refused, s.owed, s.asked || s.begun,
      s.atOnce || (s.begun && !s.asked && t.rest == []),
      if s.begun then s.firstSw else sw, sw)
  }

  /** One exchange, for at most n bytes. */
  predicate Step(k: CardSpec, s: CardState, n: nat, piece: Bytes, sw: Bytes, t: CardState) {
    Idles(k, s, piece, sw, t) || Refuses(k, s, n, piece, sw, t) || Hands(k, s, n, piece, sw, t)
  }

  lemma StepKeepsValid(k: CardSpec, s: CardState, n: nat, piece: Bytes, sw: Bytes, t: CardState)
    requires ValidState(k, s) && Step(k, s, n, piece, sw, t)
    requires !s.begun && !k.asksForData ==> n == 0
    ensures ValidState(k, t) && |sw| == 2 && s.rest == piece + t.rest
    ensures s.asked ==> t.asked && t.atOnce == s.atOnce && t.firstSw == s.firstSw
  {
    assert [] + s.rest == s.rest;
  }

  class Card {
    const spec: CardSpec
    var state: CardState

    predicate Valid()
      reads this
    {
      ValidState(spec, state)
    }

    constructor (spec: CardSpec)
      requires ValidSpec(spec)
      ensures Valid() && this.spec == spec && state == Initial(spec)
    {
      this.spec := spec;
      state := Initial(spec);
    }

    /** An announced or demanded length of at most n bytes. */
    method SomeLength(n: nat) returns (b: Byte)
      requires n > 0
      ensures LengthOf(b) <= n
    {
      var k: nat :| 1 <= k <= n && k <= 256;
      b := k % 256;
    }

    /** One exchange. The choices are the card's: pieces, announcements, refusals. */
    method Answer(capdu: Bytes) returns (piece: Bytes, sw: Bytes)
      requires Valid() && Expects(spec, state, capdu)
      modifies this
      ensures Valid() && Step(spec, old(state), Wanted(spec, old(state), capdu), piece, sw, state)
    {
      hide Hands;
      var n := Wanted(spec, state, capdu);
      if state.begun && state.rest == [] {
        piece, sw := [], spec.idleSw;
        state := state.(asked := true, lastSw := sw);
        return;
      }
      var refuse: bool := *;
      if refuse && (state.begun || spec.asksForData) && !state.owed && state.rest != [] {
        if !state.begun && !state.refused && n < |state.rest| <= 256 {
          piece, sw := [], [0x6C, |state.rest| % 256];
          state := state.(refused := true, owed := true, lastSw := sw);
          return;
        } else if n > 1 {
          var la := SomeLength(n - 1);
          piece, sw := [], [0x6C, la];
          state := state.(refused := true, asked := state.asked || state.begun, lastSw := sw);
          return;
        }
      }
      piece, sw := HandOut(n);
    }

    method HandOut(n: nat) returns (piece: Bytes, sw: Bytes)
      requires Valid() && (state.begun ==> state.rest != []) && (state.begun || spec.asksForData || n == 0)
      requires state.begun || spec.asksForData ==> n > 0
      requires !state.begun && state.owed ==> n == |state.rest|
      modifies this
      ensures Valid() && Step(spec, old(state), n, piece, sw, state)
    {
      hide Idles, Refuses;
      ghost var s := state;
      var most := if n < |state.rest| then n else |state.rest|;
      var least := if state.owed then most else if state.begun then 1 else 0;
      var size: nat :| least <= size <= most;
      piece := state.rest[..size];
      var rest := state.rest[size..];
      sw := StatusFor(rest);
      state := CardState(
        rest, true, state.refused, state.owed, state.asked || state.begun,
        state.atOnce || (state.begun && !state.asked && rest == []),
        if state.begun then state.firstSw else sw, sw);
      assert Hands(spec, s, n, piece, sw, state);
      StepKeepsValid(spec, s, n, piece, sw, state);
    }

    /** The status word behind a piece. */
    method StatusFor(rest: Bytes) returns (sw: Bytes)
      requires Valid()
      ensures |sw| == 2
      ensures if rest == [] then sw == spec.finalSw
              else
                || (sw[0] == 0x61 && LengthOf(sw[1]) <= |rest|)
                || (sw[0] == 0x90 && !state.begun && !spec.asksForData)
    {
      var quiet: bool, sw2: Byte := *, *;
      if rest == [] {
        return spec.finalSw;
      } else if quiet && !state.begun && !spec.asksForData {
        return [0x90, sw2];
      }
      sw2 := SomeLength(|rest|);
      return [0x61, sw2];
    }
  }

  // ---------- what the host knows ----------

  datatype Status = Answered | UnrecognizedApdu | TransmitError

  /**
   What the last status word says about a card that has still to hand out its rest. It announces
   some of it, or demands a shorter length, or the exact one (which it then owes in one piece).
   */
  predicate Says(sw: Bytes, k: CardSpec, s: CardState, p3: Byte) {
    && |sw| == 2
    && (if s.rest == [] then sw == k.finalSw
        else
          || (sw[0] == MORE_DATA && s.begun && LengthOf(sw[1]) <= |s.rest|)
          || (sw[0] == WRONG_LENGTH && !s.owed && LengthOf(sw[1]) < LengthOf(p3))
          || (sw[0] == WRONG_LENGTH && s.owed && !s.begun && LengthOf(sw[1]) == |s.rest| > LengthOf(p3)))
  }

  /**
   Where the host stands between two exchanges: what it has received and what the card still
   holds make up the response, and the last status word stands behind what it has received.
   */
  predicate Collecting(k: CardSpec, s: CardState, capdu: Bytes, data: Bytes, offset: nat, le: Byte) {
    && ValidState(k, s) && |capdu| == 5 && offset + 2 <= |data| && data[offset..offset + 2] == s.lastSw
    && data[..offset] + s.rest == k.response && (k.le.Some? ==> s.asked || s.rest == [])
    && Says(data[offset..offset + 2], k, s, le)
    && (s.rest == [] ==> s.begun && !s.owed)
    && (s.rest != [] && data[offset] == WRONG_LENGTH ==>
          && le == capdu[4] && s.refused && (s.begun || k.asksForData)
          && capdu[..4] == if s.begun then GET_RESPONSE else k.command[..4])
  }

  /**
   The end: the whole response and its status word. Only where the card demanded more than the
   Le of the command, the host keeps as many bytes as it had asked for.
   */
  predicate Collected(k: CardSpec, s: CardState, data: Bytes, offset: nat, le: Byte) {
    && offset + 2 <= |data| && data[offset..offset + 2] == k.finalSw && FinalStatus(k.finalSw)
    && s.rest == []
    && (s.owed ==> LengthOf(le) < |k.response| <= 256 && data[..offset] == k.response[..LengthOf(le)])
    && (!s.owed ==> data[..offset] == k.response)
  }

  /** The answer to a command without Le. */
  predicate FirstAnswer(k: CardSpec, s: CardState, data: Bytes) {
    && ValidState(k, s) && s.begun && !s.owed && !s.asked && !s.atOnce && s.rest == k.response
    && |data| >= 2 && data[..2] == s.firstSw == s.lastSw
    && (if s.rest == [] then s.firstSw == k.finalSw
        else
          || (s.firstSw[0] == MORE_DATA && LengthOf(s.firstSw[1]) <= |s.rest|)
          || s.firstSw[0] == NORMAL)
  }

  // ---------- the outcomes of case 4 ----------

  /** Where the host can stand in case 4; in case 2 it is always gathering. */
  datatype Stage =
    | Gathering
    | Lost              // it has put back a 61xx, but the card has nothing left
    | Ended(sw: Bytes)  // this status word stands at the start, and nothing comes behind it

  predicate AtStage(stage: Stage, k: CardSpec, s: CardState, capdu: Bytes, data: Bytes, offset: nat, le: Byte) {
    match stage
    case Gathering => Collecting(k, s, capdu, data, offset, le)
    case Lost =>
      && ValidState(k, s) && s.rest == [] && s.begun && s.asked && !s.owed && s.lastSw == CLASS_NOT_SUPPORTED
      && offset == 0 && |data| >= 2 && data[0] == MORE_DATA
    case Ended(sw) =>
      && ValidState(k, s) && s.begun && s.rest == [] && FinalStatus(sw)
      && offset == 0 && |data| >= 2 && data[..2] == sw
  }

  /**
   Case 4 asks for a response even behind 90xx. A card that has none then answers with its idle
   status word, and unless that is 6E00 the host takes it for the answer to the command.
   */
  predicate IdleIsReported(k: CardSpec)
    requires ValidSpec(k)
  {
    k.response == [] && k.finalSw[0] == NORMAL && k.idleSw != CLASS_NOT_SUPPORTED
  }

  /**
   A response that ends with 6E00 is lost if the first GET RESPONSE gets all of it: the host
   takes the status word for a refusal and puts the first answer back.
   */
  predicate ResponseIsLost(k: CardSpec, s: CardState) {
    k.response != [] && k.finalSw == CLASS_NOT_SUPPORTED && s.atOnce
  }

  /** What the caller of a case 4 command gets. */
  function CaseFourAnswer(k: CardSpec, s: CardState): Bytes
    requires ValidSpec(k) && |s.firstSw| == 2
  {
    if ResponseIsLost(k, s) then if s.firstSw[0] == MORE_DATA then k.idleSw else s.firstSw
    else if IdleIsReported(k) then k.idleSw
    else k.response + k.finalSw
  }

  /** The stage behind the first GET RESPONSE. */
  function CaseFourStage(k: CardSpec, s: CardState): Stage
    requires ValidSpec(k) && |s.firstSw| == 2
  {
    if ResponseIsLost(k, s) then if s.firstSw[0] == MORE_DATA then Lost else Ended(s.firstSw)
    else if k.response == [] then Ended(if IdleIsReported(k) then k.idleSw else k.finalSw)
    else Gathering
  }

  /** The caller gets response and status word exactly under a condition on the card and its first piece. */
  lemma CaseFourIff(k: CardSpec, s: CardState)
    requires ValidSpec(k) && |s.firstSw| == 2
    ensures CaseFourAnswer(k, s) == k.response + k.finalSw
            <==> if k.response != [] then k.finalSw != CLASS_NOT_SUPPORTED || !s.atOnce
                 else k.finalSw[0] != NORMAL || k.idleSw == CLASS_NOT_SUPPORTED || k.idleSw == k.finalSw
  {
    if k.response == [] {
      assert k.response + k.finalSw == k.finalSw;
    } else if ResponseIsLost(k, s) {
      assert |CaseFourAnswer(k, s)| == 2 < |k.response + k.finalSw|;
    }
  }

  /** A card that answers 9000 without data and GET RESPONSE with 6985: the caller gets 6985. */
  lemma IdleIsReportedExample(command: Bytes, s: CardState)
    requires |command| == 4 && |s.firstSw| == 2
    ensures CaseFourAnswer(CardSpec(command, Some(0x00), false, [], [0x90, 0x00], [0x69, 0x85]), s) == [0x69, 0x85]
  {
  }

  /** The length that case 4 asks for first: Le, or the shorter announced one. */
  function FirstLength(le: Byte, firstSw: Bytes): Byte
    requires |firstSw| == 2
  {
    if firstSw[0] != NORMAL && LengthOf(firstSw[1]) < LengthOf(le) then firstSw[1] else le
  }

  /**
   Every card with a non-empty response of at most Le bytes that ends with 6E00 may lose it,
   whether it announces it by 61xx or answers 90xx.
   */
  lemma LossIsPossible(k: CardSpec, le: Byte, firstSw: Bytes)
    requires ValidSpec(k) && !k.asksForData && k.finalSw == CLASS_NOT_SUPPORTED
    requires 0 < |k.response| <= LengthOf(le)
    requires firstSw == [MORE_DATA, |k.response| % 256] || (|firstSw| == 2 && firstSw[0] == NORMAL)
    ensures var s := Initial(k).(begun := true, firstSw := firstSw, lastSw := firstSw);
            var t := s.(rest := [], asked := true, atOnce := true, lastSw := k.finalSw);
            && Step(k, Initial(k), 0, [], firstSw, s)
            && Step(k, s, LengthOf(FirstLength(le, firstSw)), k.response, k.finalSw, t)
            && ResponseIsLost(k, t) && CaseFourAnswer(k, t) != k.response + k.finalSw
  {
    var s := Initial(k).(begun := true, firstSw := firstSw, lastSw := firstSw);
    var t := s.(rest := [], asked := true, atOnce := true, lastSw := k.finalSw);
    assert [] + s.rest == s.rest && k.response + [] == k.response;
    assert Hands(k, Initial(k), 0, [], firstSw, s);
    assert Hands(k, s, LengthOf(FirstLength(le, firstSw)), k.response, k.finalSw, t);
    CaseFourIff(k, t);
  }

  // ---------- exchanges ----------

  /** `SCardTransmit`: the answer goes into the buffer, if there is room behind the offset. */
  method Transmit(card: Card, capdu: Bytes, responseData: array<Byte>, offset: nat)
    returns (ok: bool, length: nat, ghost piece: Bytes, ghost sw: Bytes)
    requires card.Valid() && Expects(card.spec, card.state, capdu) && offset <= responseData.Length
    modifies card, responseData
    ensures card.Valid() && |sw| == 2 && length == |piece| + 2 && old(card.state.rest) == piece + card.state.rest
    ensures Step(card.spec, old(card.state), Wanted(card.spec, old(card.state), capdu), piece, sw, card.state)
    ensures ok <==> offset + length <= responseData.Length
    ensures responseData[..offset] == old(responseData[..offset])
    ensures ok ==> responseData[offset..offset + length] == piece + sw
  {
    hide Step, Expects, ValidState;
    ghost var s := card.state;
    var p, w := card.Answer(capdu);
    piece, sw := p, w;
    StepShape(card.spec, s, Wanted(card.spec, s, capdu), p, w, card.state);
    length := |p| + 2;
    ok := offset + length <= responseData.Length;
    if ok {
      CopyInto(responseData, offset, p + w);
    }
  }

  lemma StepShape(k: CardSpec, s: CardState, n: nat, piece: Bytes, sw: Bytes, t: CardState)
    requires ValidState(k, s) && Step(k, s, n, piece, sw, t)
    ensures |sw| == 2 && s.rest == piece + t.rest
  {
    assert [] + s.rest == s.rest;
  }

  /** The command after a demand by 6Cxx: the same, with the demanded length. */
  method Repeat(card: Card, capdu: array<Byte>, la: Byte, responseData: array<Byte>, offset: nat)
    returns (ok: bool, length: nat, ghost piece: Bytes, ghost sw: Bytes)
    requires capdu.Length >= 5 && capdu != responseData && offset <= responseData.Length && card.Valid()
    requires card.state.begun || card.spec.asksForData
    requires Expects(card.spec, card.state, capdu[..4] + [la])
    modifies card, capdu, responseData
    ensures capdu[..4] == old(capdu[..4]) && capdu[4] == la
    ensures card.Valid() && |sw| == 2 && length == |piece| + 2 && old(card.state.rest) == piece + card.state.rest
    ensures Step(card.spec, old(card.state), LengthOf(la), piece, sw, card.state)
    ensures ok <==> offset + length <= responseData.Length
    ensures responseData[..offset] == old(responseData[..offset])
    ensures ok ==> responseData[offset..offset + length] == piece + sw
  {
    hide Step;
    capdu[4] := la; // P3
    assert capdu[..5] == capdu[..4] + [la];
    ok, length, piece, sw := Transmit(card, capdu[..5], responseData, offset);
  }

  /** GET RESPONSE for a length. */
  method GetResponse(card: Card, capdu: array<Byte>, la: Byte, responseData: array<Byte>, offset: nat)
    returns (ok: bool, length: nat, ghost piece: Bytes, ghost sw: Bytes)
    requires capdu.Length >= 5 && capdu != responseData && offset <= responseData.Length && card.Valid()
    requires card.state.begun && Expects(card.spec, card.state, GET_RESPONSE + [la])
    modifies card, capdu, responseData
    ensures capdu[..4] == GET_RESPONSE && capdu[4] == la
    ensures card.Valid() && |sw| == 2 && length == |piece| + 2 && old(card.state.rest) == piece + card.state.rest
    ensures Step(card.spec, old(card.state), LengthOf(la), piece, sw, card.state)
    ensures ok <==> offset + length <= responseData.Length
    ensures responseData[..offset] == old(responseData[..offset])
    ensures ok ==> responseData[offset..offset + length] == piece + sw
  {
    hide Step;
    capdu[0] := 0x00;
    capdu[1] := 0xC0; // INS (Get Response)
    capdu[2] := 0x00; // P1
    capdu[3] := 0x00; // P2
    assert capdu[..4] == GET_RESPONSE;
    ok, length, piece, sw := Repeat(card, capdu, la, responseData, offset);
  }

  // ---------- the loop of cases 2 and 4 ----------

  /** The measure of the loop: what is left, whether the command was answered, and what was demanded. */
  predicate Nearer(s: CardState, status0: Byte, le0: Byte, t: CardState, status: Byte, le: Byte) {
    || |t.rest| < |s.rest|
    || (|t.rest| == |s.rest| && t.begun && !s.begun)
    || (|t.rest| == |s.rest| && t.begun == s.begun && status0 == MORE_DATA && status != MORE_DATA)
    || (|t.rest| == |s.rest| && t.begun == s.begun && status0 != MORE_DATA && status != MORE_DATA
        && LengthOf(le) < LengthOf(le0))
  }

  /** What a step says to a host that knew there was something left. */
  lemma StepSays(k: CardSpec, s: CardState, la: Byte, piece: Bytes, sw: Bytes, t: CardState)
    requires ValidState(k, s) && Step(k, s, LengthOf(la), piece, sw, t) && s.rest != [] && !s.owed
    requires s.begun || (s.refused && k.asksForData)
    ensures Says(sw, k, t, la) && !t.owed && (t.rest == [] ==> t.begun)
    ensures t.rest != [] && sw[0] == WRONG_LENGTH ==> t.refused && t.begun == s.begun && piece == []
    ensures s.begun ==> t.begun
    ensures t.rest != [] && sw[0] != WRONG_LENGTH ==> t.begun && (s.begun ==> piece != [])
  {
  }

  /** One exchange later the host stands there again, and nearer to the end. */
  lemma StillCollecting(
    k: CardSpec, s: CardState, la: Byte, piece: Bytes, sw: Bytes, t: CardState,
    status0: Byte, le: Byte, capdu: Bytes, data: Bytes, offset: nat)
    requires ValidState(k, s) && ValidState(k, t) && Step(k, s, LengthOf(la), piece, sw, t) && s.rest != [] && !s.owed
    requires s.begun || (s.refused && k.asksForData)
    requires |sw| == 2 && s.rest == piece + t.rest && offset + |piece| + 2 <= |data|
    requires data[..offset] + s.rest == k.response && data[offset..offset + |piece| + 2] == piece + sw
    requires |capdu| == 5 && capdu[4] == la && capdu[..4] == if s.begun then GET_RESPONSE else k.command[..4]
    requires status0 == MORE_DATA || status0 == WRONG_LENGTH
    requires status0 == MORE_DATA ==> s.begun
    requires status0 == WRONG_LENGTH ==> LengthOf(la) < LengthOf(le)
    ensures AtStage(Gathering, k, t, capdu, data, offset + |piece|, la) && !t.owed
    ensures Nearer(s, status0, le, t, data[offset + |piece|], la)
  {
    StepSays(k, s, la, piece, sw, t);
    hide Step, Says, ValidState;
    Placed(data, offset, piece, sw);
    Assoc(data[..offset], piece, t.rest);
  }

  /** Where an answer stands in the buffer. */
  lemma Placed(data: Bytes, offset: nat, piece: Bytes, sw: Bytes)
    requires |sw| == 2 && offset + |piece| + 2 <= |data| && data[offset..offset + |piece| + 2] == piece + sw
    ensures data[offset..offset + |piece|] == piece
    ensures data[..offset + |piece|] == data[..offset] + piece
    ensures data[offset + |piece|..offset + |piece| + 2] == sw
    ensures data[offset + |piece|] == sw[0] && data[offset + |piece| + 1] == sw[1]
  {
    SplitSlice(data, offset, piece, sw);
    assert data[offset + |piece|..offset + |piece| + 2][0] == data[offset + |piece|];
    assert data[offset + |piece|..offset + |piece| + 2][1] == data[offset + |piece| + 1];
  }

  /** What the host knows when it goes into a round. */
  lemma RoundStarts(k: CardSpec, s: CardState, capdu: Bytes, data: Bytes, offset: nat, le: Byte)
    requires AtStage(Gathering, k, s, capdu, data, offset, le)
    requires data[offset] == MORE_DATA || data[offset] == WRONG_LENGTH
    ensures ValidState(k, s) && s.rest != [] && offset + 2 <= |data| && offset + |s.rest| == |k.response|
    ensures data[..offset] + s.rest == k.response
    ensures data[offset] == MORE_DATA ==> s.begun && !s.owed
    ensures Expects(k, s, (if data[offset] == WRONG_LENGTH then capdu[..4] else GET_RESPONSE) + [data[offset + 1]])
    ensures data[offset] == WRONG_LENGTH ==>
              var la := data[offset + 1];
              && le == capdu[4] && s.refused && (s.begun || k.asksForData)
              && capdu[..4] == (if s.begun then GET_RESPONSE else k.command[..4])
              && (if s.owed then
                    !s.begun && offset == 0 && s.rest == k.response && LengthOf(la) == |s.rest| > LengthOf(le)
                  else LengthOf(la) < LengthOf(le))
  {
    assert data[offset..offset + 2] == [data[offset], data[offset + 1]];
    assert |data[..offset]| == offset;
  }

  /** Where the response is gone, the host may ask for any length. */
  lemma LostMayAsk(k: CardSpec, s: CardState, capdu: Bytes, data: Bytes, offset: nat, le: Byte)
    requires AtStage(Lost, k, s, capdu, data, offset, le)
    ensures forall la: Byte :: Expects(k, s, GET_RESPONSE + [la])
  {
  }

  /** What is owed comes in one piece. */
  lemma OwedComes(k: CardSpec, s: CardState, n: nat, piece: Bytes, sw: Bytes, t: CardState)
    requires Step(k, s, n, piece, sw, t) && s.rest != [] && s.owed
    ensures t.rest == [] && t.owed && piece == s.rest && sw == k.finalSw && (s.begun ==> t.begun)
  {
    assert piece + [] == piece;
  }

  /** A card with nothing left answers with its idle status word alone. */
  lemma IdleComes(k: CardSpec, s: CardState, n: nat, piece: Bytes, sw: Bytes, t: CardState)
    requires Step(k, s, n, piece, sw, t) && s.begun && s.rest == []
    ensures piece == [] && sw == k.idleSw && t == s.(asked := true, lastSw := sw)
  {
  }

  /** What the status word can be at each stage. */
  lemma StageSays(stage: Stage, k: CardSpec, s: CardState, capdu: Bytes, data: Bytes, offset: nat, le: Byte)
    requires AtStage(stage, k, s, capdu, data, offset, le)
    ensures ValidState(k, s) && ValidSpec(k) && offset + 2 <= |data| && data[offset] != MORE_DATA_GSM
    ensures s.asked ==> s.begun
    ensures stage.Ended? ==> data[offset] != MORE_DATA && data[offset] != WRONG_LENGTH
    ensures stage.Lost? ==> data[offset] == MORE_DATA && s.begun && s.rest == [] && !s.owed && offset == 0
    ensures stage.Gathering? && s.begun ==> !s.owed
    ensures stage.Gathering? && (data[offset] == MORE_DATA || data[offset] == WRONG_LENGTH) ==> s.rest != []
    ensures stage.Gathering? && data[offset] != MORE_DATA && data[offset] != WRONG_LENGTH ==>
              !s.owed && s.rest == [] && Collected(k, s, data, offset, le)
  {
    assert data[offset..offset + 2][0] == data[offset];
    assert stage.Ended? ==> data[..2][0] == data[0];
    if stage.Gathering? && s.rest == [] {
      assert data[..offset] + [] == data[..offset];
    }
  }

  /** The command again behind 6Cxx, and GET RESPONSE otherwise. */
  method Send(card: Card, capdu: array<Byte>, status: Byte, la: Byte, responseData: array<Byte>, offset: nat)
    returns (ok: bool, length: nat, ghost piece: Bytes, ghost sw: Bytes)
    requires capdu.Length >= 5 && capdu != responseData && offset <= responseData.Length && card.Valid()
    requires card.state.begun || (status == WRONG_LENGTH && card.spec.asksForData)
    requires Expects(card.spec, card.state, (if status == WRONG_LENGTH then capdu[..5][..4] else GET_RESPONSE) + [la])
    modifies card, capdu, responseData
    ensures capdu[..5][..4] == (if status == WRONG_LENGTH then old(capdu[..5][..4]) else GET_RESPONSE) && capdu[..5][4] == la
    ensures card.Valid() && |sw| == 2 && length == |piece| + 2 && old(card.state.rest) == piece + card.state.rest
    ensures Step(card.spec, old(card.state), LengthOf(la), piece, sw, card.state)
    ensures ok <==> offset + length <= responseData.Length
    ensures responseData[..offset] == old(responseData[..offset])
    ensures ok ==> responseData[offset..offset + length] == piece + sw
  {
    hide Step, ValidState, Expects;
    assert capdu[..5][..4] == capdu[..4];
    if status == WRONG_LENGTH {
      ok, length, piece, sw := Repeat(card, capdu, la, responseData, offset);
    } else {
      ok, length, piece, sw := GetResponse(card, capdu, la, responseData, offset);
    }
    assert capdu[..5][..4] == capdu[..4];
  }

  /** One round of the loop, from Gathering or from Lost. */
  method Round(card: Card, capdu: array<Byte>, le: Byte, responseData: array<Byte>, offset: nat, ghost stage: Stage)
    returns (ok: bool, cut: bool, offset': nat, le': Byte)
    requires capdu.Length >= 5 && capdu != responseData
    requires AtStage(stage, card.spec, card.state, capdu[..5], responseData[..], offset, le)
    requires responseData[offset] == MORE_DATA || responseData[offset] == WRONG_LENGTH
    modifies card, capdu, responseData
    ensures card.Valid() && (old(card.state.begun) ==> card.state.begun && !cut)
    ensures old(card.state.asked) ==> Remembers(old(card.state), card.state)
    ensures !ok ==> |card.spec.response| + 2 > responseData.Length
    ensures stage.Lost? ==> ok && !cut
    ensures ok && cut ==>
              && Collected(card.spec, card.state, responseData[..], offset', le)
              && old(card.state.owed) && le' == le
    ensures ok && !cut ==>
              && AtStage(if stage.Lost? then Ended(card.spec.idleSw) else Gathering,
                         card.spec, card.state, capdu[..5], responseData[..], offset', le')
              && (stage.Gathering? ==> !card.state.owed)
              && offset' < responseData.Length
              && Nearer(old(card.state), old(responseData[offset]), le, card.state, responseData[offset'], le')
  {
    hide Says, Step, AtStage, Collected, Nearer, ValidState, Remembers;
    ghost var k, s := card.spec, card.state;
    StageSays(stage, k, s, capdu[..5], responseData[..], offset, le);
    if stage.Gathering? {
      RoundStarts(k, s, capdu[..5], responseData[..], offset, le);
    } else {
      LostMayAsk(k, s, capdu[..5], responseData[..], offset, le);
    }
    var la, status := responseData[offset + 1], responseData[offset];
    var length;
    ghost var piece, sw;
    ok, length, piece, sw := Send(card, capdu, status, la, responseData, offset);
    StepRemembers(k, s, LengthOf(la), piece, sw, card.state);
    cut, offset', le' := false, offset, le;
    if stage.Lost? {
      IdleComes(k, s, LengthOf(la), piece, sw, card.state);
    }
    if !ok {
      return;
    }
    if status == WRONG_LENGTH && LengthOf(le) < LengthOf(la) {
      cut := true;
      OwedComes(k, s, LengthOf(la), piece, sw, card.state);
      offset' := KeepPrefix(k, card.state, le, responseData, offset, length);
      return;
    }
    offset' := offset + length - 2;
    le' := la;
    if stage.Lost? {
      IdleEnds(k, s, card.state, responseData[..], capdu[..5], le, la);
    } else {
      StillCollecting(k, s, la, piece, sw, card.state, status, le, capdu[..5], responseData[..], offset);
      StageSays(Gathering, k, card.state, capdu[..5], responseData[..], offset', le');
    }
  }

  /** Once GET RESPONSE was sent, what happened to the first answers stays as it is. */
  predicate Remembers(s: CardState, t: CardState) {
    t.asked && t.atOnce == s.atOnce && t.firstSw == s.firstSw
  }

  lemma StepRemembers(k: CardSpec, s: CardState, n: nat, piece: Bytes, sw: Bytes, t: CardState)
    requires Step(k, s, n, piece, sw, t)
    ensures s.asked && s.begun ==> Remembers(s, t)
    ensures s.begun ==> t.begun
  {
  }

  lemma IdleEnds(k: CardSpec, s: CardState, t: CardState, data: Bytes, capdu: Bytes, le: Byte, la: Byte)
    requires ValidState(k, t) && s.begun && s.rest == [] && t == s.(asked := true, lastSw := k.idleSw)
    requires |data| >= 2 && data[0..2] == [] + k.idleSw
    ensures AtStage(Ended(k.idleSw), k, t, capdu, data, 0, la)
    ensures Nearer(s, MORE_DATA, le, t, data[0], la)
  {
    assert data[..2] == data[0..2] == k.idleSw;
    assert data[..2][0] == data[0];
  }

  /** More came than was asked for: the status word is moved behind the first Le bytes. */
  method KeepPrefix(
    ghost k: CardSpec, ghost t: CardState, le: Byte, responseData: array<Byte>, offset: nat, length: nat)
    returns (offset': nat)
    requires length >= 2 && offset == 0 && length <= responseData.Length
    requires responseData[0..length] == k.response + k.finalSw && FinalStatus(k.finalSw)
    requires t.owed && t.rest == [] && LengthOf(le) < |k.response| <= 256
    modifies responseData
    ensures Collected(k, t, responseData[..], offset', le)
  {
    Placed(responseData[..], 0, k.response, k.finalSw);
    offset' := offset + LengthOf(le);
    ghost var before := responseData[..offset'];
    responseData[offset'], responseData[offset' + 1] :=
      responseData[offset + length - 2], responseData[offset + length - 1];
    assert responseData[..][..offset'] == before == k.response[..LengthOf(le)];
  }

  /** The loop of cases 2 and 4; in case 4 it also takes the 9Fxx of GSM cards. */
  method Collect(
    card: Card, capdu: array<Byte>, le0: Byte, responseData: array<Byte>, offset0: nat, gsm: bool, ghost stage0: Stage)
    returns (ok: bool, offset: nat)
    requires capdu.Length >= 5 && capdu != responseData
    requires AtStage(stage0, card.spec, card.state, capdu[..5], responseData[..], offset0, le0)
    modifies card, capdu, responseData
    ensures card.Valid()
    ensures old(card.state.asked) ==> Remembers(old(card.state), card.state)
    ensures stage0.Ended? || (stage0.Gathering? && old(card.state.rest) == []) ==> card.state == old(card.state)
    ensures !stage0.Gathering? ==>
              && ok && offset == 0 && 2 <= responseData.Length
              && responseData[..2] == (if stage0.Lost? then card.spec.idleSw else stage0.sw)
              && responseData[0] != MORE_DATA
    ensures stage0.Gathering? && ok ==> Collected(card.spec, card.state, responseData[..], offset, le0)
    ensures stage0.Gathering? && ok && old(card.state.begun) ==> !card.state.owed
    ensures !ok ==> |card.spec.response| + 2 > responseData.Length
  {
    hide Says, Collected, Collecting, ValidState;
    var le := le0;
    offset := offset0;
    ghost var stage, k := stage0, card.spec;
    StageSays(stage, k, card.state, capdu[..5], responseData[..], offset, le);
    while responseData[offset] == MORE_DATA || responseData[offset] == WRONG_LENGTH
          || (gsm && responseData[offset] == MORE_DATA_GSM)
      invariant offset < responseData.Length && card.Valid()
      invariant AtStage(stage, k, card.state, capdu[..5], responseData[..], offset, le)
      invariant stage == stage0 || (stage0.Lost? && stage == Ended(k.idleSw))
      invariant stage.Gathering? && card.state.owed ==> le == le0
      invariant old(card.state.begun) ==> card.state.begun && (stage.Gathering? ==> !card.state.owed)
      invariant old(card.state.asked) ==> Remembers(old(card.state), card.state)
      invariant stage0.Ended? || (stage.Gathering? && old(card.state.rest) == []) ==> card.state == old(card.state)
      decreases |card.state.rest|, !card.state.begun, responseData[offset] == MORE_DATA, LengthOf(le)
    {
      StageSays(stage, k, card.state, capdu[..5], responseData[..], offset, le);
      var cut;
      ok, cut, offset, le := Round(card, capdu, le, responseData, offset, stage);
      if !ok || cut {
        return;
      }
      if stage.Lost? {
        stage := Ended(k.idleSw);
      }
    }
    StageSays(stage, k, card.state, capdu[..5], responseData[..], offset, le);
    if stage.Gathering? {
      CollectedForAnyLe(k, card.state, responseData[..], offset, le, le0);
    }
    ok := true;
  }

  lemma CollectedForAnyLe(k: CardSpec, s: CardState, data: Bytes, offset: nat, le: Byte, le': Byte)
    requires Collected(k, s, data, offset, le)
    ensures s.owed ==> LengthOf(le) < 256
    ensures !s.owed || le == le' ==> Collected(k, s, data, offset, le')
    ensures !s.owed ==> data[..offset + 2] == k.response + k.finalSw
    ensures offset + 2 <= |data| && data[offset] != MORE_DATA
  {
    assert data[..offset + 2] == data[..offset] + data[offset..offset + 2];
    assert data[offset..offset + 2][0] == data[offset];
  }

  lemma CollectedCopies(k: CardSpec, s: CardState, data: Bytes, copy: Bytes, offset: nat, le: Byte)
    requires Collected(k, s, data, offset, le)
    requires offset + 2 <= |copy| && copy[..offset + 2] == data[..offset + 2]
    ensures Collected(k, s, copy, offset, le)
  {
    assert copy[..offset] == copy[..offset + 2][..offset] == data[..offset];
    assert copy[offset..offset + 2] == copy[..offset + 2][offset..] == data[offset..offset + 2];
  }

  // ---------- the parts of the call ----------

  /** The four cases, told apart as the source does. */
  function CaseOf(capdu: Bytes): nat
    requires |capdu| >= 4
  {
    if |capdu| == 4 then 1
    else if |capdu| == 5 then 2
    else if LengthOf(capdu[4]) + 5 == |capdu| then 3
    else if LengthOf(capdu[4]) + 6 == |capdu| then 4
    else 0
  }

  /** The case of a command is that of its data and its Le. */
  lemma CaseOfEncoded(c: Command)
    requires |c.data| <= 256
    ensures CaseOf(Encode(c)) == if c.data == [] then if c.le.None? then 1 else 2 else if c.le.None? then 3 else 4
    ensures c.le.Some? ==> Encode(c)[|Encode(c)| - 1] == c.le.value
  {
  }

  /** The first exchange: the command itself. */
  method FirstExchange(card: Card, capdu: array<Byte>, length: nat, responseData: array<Byte>)
    returns (ok: bool, offset: nat)
    requires card.Valid() && card.state == Initial(card.spec)
    requires 4 <= length <= capdu.Length && capdu.Length >= 5 && capdu != responseData
    requires card.spec.command == capdu[..length] && (card.spec.asksForData <==> length == 5)
    modifies card, responseData
    ensures card.Valid() && (!ok ==> |card.spec.response| + 2 > responseData.Length)
    ensures ok && card.spec.asksForData ==>
              Collecting(card.spec, card.state, capdu[..5], responseData[..], offset, capdu[4])
    ensures ok && !card.spec.asksForData ==> offset == 0 && FirstAnswer(card.spec, card.state, responseData[..])
  {
    hide Step, ValidState, Collecting, FirstAnswer;
    ghost var k, s, n := card.spec, card.state, if card.spec.asksForData then LengthOf(capdu[4]) else 0;
    var got;
    ghost var piece, sw;
    ok, got, piece, sw := Transmit(card, capdu[..length], responseData, 0);
    offset := got - 2;
    if ok {
      if k.asksForData {
        FirstWithData(k, capdu[4], piece, sw, card.state, capdu[..5], responseData[..]);
      } else {
        FirstWithoutData(k, piece, sw, card.state, responseData[..]);
      }
    }
  }

  lemma FirstWithData(k: CardSpec, le: Byte, piece: Bytes, sw: Bytes, t: CardState, capdu: Bytes, data: Bytes)
    requires k.asksForData && ValidState(k, t) && Step(k, Initial(k), LengthOf(le), piece, sw, t)
    requires |sw| == 2 && |piece| + 2 <= |data| && data[0..|piece| + 2] == piece + sw
    requires |capdu| == 5 && capdu == k.command && capdu[4] == le
    ensures Collecting(k, t, capdu, data, |piece|, le)
  {
    Placed(data, 0, piece, sw);
    assert data[..|piece|] == piece;
    assert k.response == piece + t.rest by {
      StepShape(k, Initial(k), LengthOf(le), piece, sw, t);
    }
  }

  lemma FirstWithoutData(k: CardSpec, piece: Bytes, sw: Bytes, t: CardState, data: Bytes)
    requires !k.asksForData && ValidState(k, t) && Step(k, Initial(k), 0, piece, sw, t)
    requires |sw| == 2 && |piece| + 2 <= |data| && data[0..|piece| + 2] == piece + sw
    ensures piece == [] && FirstAnswer(k, t, data)
  {
    assert piece == [] && [] + t.rest == t.rest && [] + sw == sw;
    assert data[..2] == data[0..2];
  }

  /**
   The first GET RESPONSE of case 4, for Le or the shorter announced length. Where 6E00 seems to
   refuse it, the first answer is restored from the caller's buffer.
   */
  method AskAfterCase4(card: Card, capdu: array<Byte>, le0: Byte, responseData: array<Byte>, rapdu: array<Byte>)
    returns (ok: bool, offset: nat, le: Byte)
    requires capdu.Length >= 5 && capdu != responseData && rapdu != responseData && rapdu != capdu
    requires rapdu.Length == responseData.Length && FirstAnswer(card.spec, card.state, responseData[..])
    requires card.spec.le == Some(le0)
    modifies card, capdu, responseData, rapdu
    ensures card.Valid() && |card.state.firstSw| == 2
    ensures !ok ==> |card.spec.response| + 2 > responseData.Length
    ensures ok ==>
              AtStage(CaseFourStage(card.spec, card.state), card.spec, card.state, capdu[..5], responseData[..], offset, le)
    ensures card.state.asked || card.state.rest == []
    ensures card.state.begun && !card.state.owed
    ensures card.state.atOnce ==> |card.spec.response| <= LengthOf(le0)
    ensures card.state.asked ==> le == FirstLength(le0, card.state.firstSw)
  {
    hide Step, Says, AtStage, CaseFourStage, ValidState, FirstAnswer, FirstFacts;
    ghost var k, s := card.spec, card.state;
    offset, le := 0, le0;
    FirstSays(k, s, responseData[..]);
    if responseData[0] == MORE_DATA || responseData[0] == NORMAL || responseData[0] == MORE_DATA_GSM {
      if responseData[0] != NORMAL && LengthOf(responseData[1]) < LengthOf(le) {
        le := responseData[1];
      }
      FirstRequestExpected(k, s, le0, responseData[..]);
      var length;
      ghost var piece, sw;
      ok, length, piece, sw := SaveAndAsk(card, capdu, le, responseData, rapdu);
      FirstRequest(k, s, le, piece, sw, card.state);
      FirstFactsHold(k, s, le, piece, sw, card.state);
      if !ok {
        return;
      }
      offset := RestoreRefused(responseData, rapdu, length, piece, sw);
      OutcomeAfterCase4(k, s, le, piece, sw, card.state, capdu[..5], responseData[..], offset);
      return;
    }
    Skipped(k, s, capdu[..5], responseData[..], le);
    ok := true;
  }

  /** The answer so far is saved in the caller's buffer, and GET RESPONSE is sent. */
  method SaveAndAsk(card: Card, capdu: array<Byte>, p3: Byte, responseData: array<Byte>, rapdu: array<Byte>)
    returns (ok: bool, length: nat, ghost piece: Bytes, ghost sw: Bytes)
    requires capdu.Length >= 5 && capdu != responseData && rapdu != responseData && rapdu != capdu
    requires rapdu.Length == responseData.Length >= 2 && card.Valid()
    requires card.state.begun && Expects(card.spec, card.state, GET_RESPONSE + [p3])
    modifies card, capdu, responseData, rapdu
    ensures rapdu[..2] == old(responseData[..2])
    ensures capdu[..5][..4] == GET_RESPONSE && capdu[..5][4] == p3
    ensures card.Valid() && |sw| == 2 && length == |piece| + 2 && old(card.state.rest) == piece + card.state.rest
    ensures Step(card.spec, old(card.state), LengthOf(p3), piece, sw, card.state)
    ensures ok <==> length <= responseData.Length
    ensures ok ==> responseData[..][0..length] == piece + sw
  {
    hide Step, ValidState;
    CopyInto(rapdu, 0, responseData[..2]);
    ok, length, piece, sw := GetResponse(card, capdu, p3, responseData, 0);
    assert capdu[..5][..4] == capdu[..4];
    if ok {
      assert responseData[..][0..length] == responseData[0..length];
    }
  }

  /** Behind 6E00 the saved answer is put back. */
  method RestoreRefused(
    responseData: array<Byte>, rapdu: array<Byte>, length: nat, ghost piece: Bytes, ghost sw: Bytes)
    returns (offset: nat)
    requires rapdu != responseData && 2 <= length <= responseData.Length && rapdu.Length >= 2
    requires |sw| == 2 && responseData[..][0..length] == piece + sw && length == |piece| + 2
    modifies responseData
    ensures if sw == CLASS_NOT_SUPPORTED then offset == 0 && responseData[..2] == rapdu[..2]
            else offset == |piece| && responseData[..] == old(responseData[..])
  {
    Placed(responseData[..], 0, piece, sw);
    ShortIs(responseData[..], length - 2, sw);
    if GetShort(responseData[..], length - 2) == 0x6E00 {
      CopyInto(responseData, 0, rapdu[..2]);
      return 0;
    }
    return length - 2;
  }

  lemma OutcomeAfterCase4(
    k: CardSpec, s: CardState, p3: Byte, piece: Bytes, sw: Bytes, t: CardState, capdu: Bytes, data: Bytes, offset: nat)
    requires FirstFacts(k, s, p3, piece, sw, t) && ValidState(k, t) && |capdu| == 5
    requires capdu[4] == p3 && capdu[..4] == GET_RESPONSE && |sw| == 2 && s.rest == piece + t.rest
    requires if sw == CLASS_NOT_SUPPORTED then offset == 0 && |data| >= 2 && data[..2] == s.firstSw
             else offset == |piece| && offset + 2 <= |data| && data[0..offset + 2] == piece + sw
    ensures |t.firstSw| == 2 && AtStage(CaseFourStage(k, t), k, t, capdu, data, offset, p3)
  {
    FirstRequest(k, s, p3, piece, sw, t);
    hide Step, AtStage, CaseFourStage, ValidState;
    if sw == CLASS_NOT_SUPPORTED {
      Restored(k, s, p3, piece, sw, t, capdu, data);
    } else {
      Continued(k, s, p3, piece, sw, t, capdu, data);
    }
  }

  lemma FirstRequestExpected(k: CardSpec, s: CardState, le: Byte, data: Bytes)
    requires FirstAnswer(k, s, data) && k.le == Some(le) && data[0] in {MORE_DATA, NORMAL, MORE_DATA_GSM}
    ensures |s.firstSw| == 2 && s.firstSw == [data[0], data[1]]
    ensures Expects(k, s, GET_RESPONSE + [FirstLength(le, s.firstSw)])
  {
    FirstSays(k, s, data);
  }

  lemma FirstFactsHold(k: CardSpec, s: CardState, p3: Byte, piece: Bytes, sw: Bytes, t: CardState)
    requires ValidState(k, s) && s.begun && !s.owed && !s.asked && !s.atOnce && s.rest == k.response
    requires |s.firstSw| == 2 && s.firstSw[0] in {MORE_DATA, NORMAL, MORE_DATA_GSM}
    requires s.rest == [] ==> s.firstSw == k.finalSw && FinalStatus(k.finalSw)
    requires s.rest != [] ==> s.firstSw[0] == MORE_DATA || s.firstSw[0] == NORMAL
    requires Step(k, s, LengthOf(p3), piece, sw, t)
    ensures FirstFacts(k, s, p3, piece, sw, t)
  {
    hide Step;
  }

  lemma ShortIs(data: Bytes, at: nat, sw: Bytes)
    requires |sw| == 2 && at + 2 <= |data| && data[at] == sw[0] && data[at + 1] == sw[1]
    ensures GetShort(data, at) == 0x6E00 <==> sw == CLASS_NOT_SUPPORTED
  {
    assert sw == [sw[0], sw[1]];
  }

  lemma FirstSays(k: CardSpec, s: CardState, data: Bytes)
    requires FirstAnswer(k, s, data)
    ensures ValidState(k, s) && s.begun && !s.owed && !s.asked && !s.atOnce && s.rest == k.response
    ensures |data| >= 2 && |s.firstSw| == 2 && data[..2] == s.firstSw == [data[0], data[1]]
    ensures data[0] != MORE_DATA && data[0] != NORMAL ==> s.rest == []
    ensures data[0] == MORE_DATA ==> s.rest != []
    ensures s.rest == [] ==> s.firstSw == k.finalSw && FinalStatus(k.finalSw)
    ensures s.rest != [] ==> s.firstSw[0] == MORE_DATA || s.firstSw[0] == NORMAL
  {
    assert data[..2][0] == data[0] && data[..2][1] == data[1];
  }

  /** What the first GET RESPONSE makes of the card. */
  lemma FirstRequest(k: CardSpec, s: CardState, p3: Byte, piece: Bytes, sw: Bytes, t: CardState)
    requires ValidState(k, s) && s.begun && !s.owed && !s.asked && !s.atOnce && s.rest == k.response
    requires Step(k, s, LengthOf(p3), piece, sw, t)
    ensures t.asked && t.begun && !t.owed && t.firstSw == s.firstSw
    ensures k.response == [] ==> piece == [] && sw == k.idleSw && t.rest == [] && !t.atOnce
    ensures k.response != [] ==> (t.atOnce <==> t.rest == [])
    ensures k.response != [] ==> (sw == CLASS_NOT_SUPPORTED <==> k.finalSw == CLASS_NOT_SUPPORTED && t.atOnce)
    ensures t.atOnce ==> 0 < |k.response| <= LengthOf(p3)
  {
    if t.rest == [] {
      assert piece + [] == piece;
    }
  }

  /** 6E00 came, and the first answer is back in its place. */
  lemma Restored(
    k: CardSpec, s: CardState, p3: Byte, piece: Bytes, sw: Bytes, t: CardState, capdu: Bytes, data: Bytes)
    requires FirstFacts(k, s, p3, piece, sw, t) && ValidState(k, t) && |capdu| == 5
    requires sw == CLASS_NOT_SUPPORTED && |data| >= 2 && data[..2] == s.firstSw
    ensures AtStage(CaseFourStage(k, t), k, t, capdu, data, 0, p3)
  {
    FirstRequest(k, s, p3, piece, sw, t);
    hide Step;
    assert data[..2] == data[0..2] && data[..2][0] == data[0];
    assert data[..0] == [];
  }

  /** Anything else came. */
  lemma Continued(
    k: CardSpec, s: CardState, p3: Byte, piece: Bytes, sw: Bytes, t: CardState, capdu: Bytes, data: Bytes)
    requires FirstFacts(k, s, p3, piece, sw, t) && ValidState(k, t) && |capdu| == 5
    requires capdu[4] == p3 && capdu[..4] == GET_RESPONSE && sw != CLASS_NOT_SUPPORTED
    requires |sw| == 2 && s.rest == piece + t.rest
    requires |piece| + 2 <= |data| && data[0..|piece| + 2] == piece + sw
    ensures AtStage(CaseFourStage(k, t), k, t, capdu, data, |piece|, p3)
  {
    FirstRequest(k, s, p3, piece, sw, t);
    if k.response == [] {
      assert data[..2] == data[0..2] == [] + sw;
    } else {
      assert data[..0] + s.rest == k.response;
      StillCollecting(k, s, p3, piece, sw, t, MORE_DATA, p3, capdu, data, 0);
    }
  }

  /** Neither 61xx nor 90xx: the card had no response, and the first answer stands. */
  lemma Skipped(k: CardSpec, s: CardState, capdu: Bytes, data: Bytes, le: Byte)
    requires FirstAnswer(k, s, data) && |capdu| == 5 && data[0] != MORE_DATA && data[0] != NORMAL
    ensures AtStage(CaseFourStage(k, s), k, s, capdu, data, 0, le)
  {
    FirstSays(k, s, data);
    assert data[..2] == data[0..2] && data[..0] == [];
  }

  /** The first GET RESPONSE and the answer before it. */
  predicate FirstFacts(k: CardSpec, s: CardState, p3: Byte, piece: Bytes, sw: Bytes, t: CardState) {
    && ValidState(k, s) && s.begun && !s.owed && !s.asked && !s.atOnce && s.rest == k.response
    && |s.firstSw| == 2 && (s.rest == [] ==> s.firstSw == k.finalSw && k.finalSw[0] == NORMAL)
    && (s.rest != [] ==> s.firstSw[0] == MORE_DATA || s.firstSw[0] == NORMAL)
    && Step(k, s, LengthOf(p3), piece, sw, t)
  }

  /** A case 1 or 3 command may turn out to have a response: one GET RESPONSE asks for it. */
  method AskOnce(card: Card, capdu: array<Byte>, responseData: array<Byte>, offset0: nat) returns (ok: bool, offset: nat)
    requires capdu.Length >= 5 && capdu != responseData
    requires card.Valid() && offset0 + 2 <= responseData.Length
    requires responseData[offset0] == MORE_DATA ==>
               && card.state.begun && responseData[..offset0] + card.state.rest == card.spec.response
               && Expects(card.spec, card.state, GET_RESPONSE + [responseData[offset0 + 1]])
    modifies card, capdu, responseData
    ensures !ok ==> |card.spec.response| + 2 > responseData.Length
    ensures old(responseData[offset0]) != MORE_DATA ==>
              ok && offset == offset0 && responseData[..] == old(responseData[..]) && unchanged(card)
    ensures ok ==> offset + 2 <= responseData.Length
    ensures ok && old(responseData[offset0]) == MORE_DATA ==>
              && card.state.asked && responseData[..offset] + card.state.rest == card.spec.response
              && responseData[offset..offset + 2] == card.state.lastSw
              && card.state.firstSw == old(card.state.firstSw)
  {
    hide Step, ValidState, Expects;
    offset := offset0;
    ok := true;
    if responseData[offset] == MORE_DATA {
      ghost var s := card.state;
      var la, length := responseData[offset + 1], 0;
      ghost var piece, sw;
      ok, length, piece, sw := GetResponse(card, capdu, la, responseData, offset);
      assert |responseData[..offset]| == offset;
      if !ok {
        return;
      }
      Placed(responseData[..], offset, piece, sw);
      LastSwIs(card.spec, s, LengthOf(la), piece, sw, card.state);
      Assoc(responseData[..offset], piece, card.state.rest);
      offset := offset + length - 2;
      assert responseData[..][..offset] == responseData[..offset];
      assert responseData[..][offset..offset + 2] == responseData[offset..offset + 2];
    }
  }

  lemma LastSwIs(k: CardSpec, s: CardState, n: nat, piece: Bytes, sw: Bytes, t: CardState)
    requires Step(k, s, n, piece, sw, t) && s.begun
    ensures t.lastSw == sw && t.asked && t.firstSw == s.firstSw
  {
  }

  /** The end of the call: the single GET RESPONSE of cases 1 and 3, and the copy to the caller. */
  method Deliver(card: Card, capdu: array<Byte>, responseData: array<Byte>, offset0: nat, rapdu: array<Byte>)
    returns (ok: bool, rapduLength: nat)
    requires capdu.Length >= 5 && capdu != responseData && rapdu != responseData && rapdu != capdu
    requires rapdu.Length == responseData.Length && card.Valid() && offset0 + 2 <= responseData.Length
    requires responseData[offset0] == MORE_DATA ==>
               && card.state.begun && responseData[..offset0] + card.state.rest == card.spec.response
               && Expects(card.spec, card.state, GET_RESPONSE + [responseData[offset0 + 1]])
    modifies card, capdu, responseData, rapdu
    ensures !ok ==> |card.spec.response| + 2 > rapdu.Length
    ensures ok ==> 2 <= rapduLength <= rapdu.Length
    ensures old(responseData[offset0]) == MORE_DATA && ok ==>
              && card.state.asked && card.state.firstSw == old(card.state.firstSw)
              && rapdu[..rapduLength - 2] + card.state.rest == card.spec.response
              && rapdu[rapduLength - 2..rapduLength] == card.state.lastSw
    ensures old(responseData[offset0]) != MORE_DATA ==>
              && ok && unchanged(card) && rapduLength == offset0 + 2
              && rapdu[..rapduLength] == old(responseData[..offset0 + 2])
  {
    rapduLength := 0;
    var offset;
    ok, offset := AskOnce(card, capdu, responseData, offset0);
    if !ok {
      return;
    }
    ghost var data := responseData[..];
    CopyInto(rapdu, 0, responseData[..offset + 2]);
    rapduLength := offset + 2;
    assert rapdu[..offset + 2] == data[..offset + 2];
    assert rapdu[..offset] == rapdu[..offset + 2][..offset] == data[..offset];
    assert rapdu[offset..offset + 2] == rapdu[..offset + 2][offset..] == data[offset..offset + 2];
  }

  /**
   `OPGP_PL_send_APDU` over T=0. In case 2 the caller gets exactly the response of the card and
   its status word, whenever they fit, or the first Le bytes where the card demanded more than
   Le; in case 4 exactly `CaseFourAnswer`. In cases 1 and 3 the source asks for a response only
   once, so what it got and what the card still holds make up the response.
   */
  method SendApdu(card: Card, capdu: array<Byte>, capduLength: nat, rapdu: array<Byte>)
    returns (status: Status, rapduLength: nat)
    requires card.Valid() && card.state == Initial(card.spec)
    requires 4 <= capduLength <= capdu.Length && capdu.Length >= 5 && capdu != rapdu
    requires card.spec.asksForData <==> capduLength == 5
    requires CaseOf(capdu[..capduLength]) in {1, 2, 3} ==>
               card.spec.command == capdu[..capduLength] && card.spec.le == None
    requires CaseOf(capdu[..capduLength]) == 4 ==>
               card.spec.command == capdu[..capduLength - 1] && card.spec.le == Some(capdu[capduLength - 1])
    modifies card, capdu, rapdu
    ensures status == UnrecognizedApdu <==> CaseOf(old(capdu[..capduLength])) == 0
    ensures status == TransmitError ==> |card.spec.response| + 2 > rapdu.Length
    ensures status == Answered ==>
              var case_, le := CaseOf(old(capdu[..capduLength])), old(capdu[capduLength - 1]);
              && 2 <= rapduLength <= rapdu.Length
              && (case_ == 2 ==> Collected(card.spec, card.state, rapdu[..], rapduLength - 2, le))
              && (case_ == 2 && LengthOf(le) == 256 ==>
                    rapdu[..rapduLength] == card.spec.response + card.spec.finalSw)
              && (case_ == 4 ==>
                    && |card.state.firstSw| == 2
                    && rapdu[..rapduLength] == CaseFourAnswer(card.spec, card.state)
                    && (card.state.atOnce ==> |card.spec.response| <= LengthOf(le)))
              && (case_ == 1 || case_ == 3 ==>
                    && rapdu[..rapduLength - 2] + card.state.rest == card.spec.response
                    && rapdu[rapduLength - 2..rapduLength] == card.state.lastSw
                    && |card.state.firstSw| == 2 && (card.state.asked <==> card.state.firstSw[0] == 0x61))
  {
    rapduLength := 0;
    var responseData := new Byte[rapdu.Length](_ => 0);
    var length := capduLength;
    var caseApdu: nat;
    var le: Byte := 0;
    if capduLength == 4 {
      caseApdu := 1;
    } else if capduLength == 5 {
      caseApdu := 2;
      le := capdu[4];
    } else {
      var lc := capdu[4];
      if LengthOf(lc) + 5 == capduLength {
        caseApdu := 3;
      } else if LengthOf(lc) + 6 == capduLength {
        caseApdu := 4;
        le := capdu[capduLength - 1];
        length := length - 1;
      } else {
        return UnrecognizedApdu, 0;
      }
    }
    hide FirstAnswer, Collected, Collecting, ValidState;
    var ok, offset := FirstExchange(card, capdu, length, responseData);
    if !ok {
      return TransmitError, 0;
    }
    if caseApdu == 2 {
      ok, rapduLength := FinishCase2(card, capdu, le, responseData, offset, rapdu);
    } else if caseApdu == 4 {
      ok, rapduLength := FinishCase4(card, capdu, le, responseData, rapdu);
    } else {
      ok, rapduLength := FinishCase13(card, capdu, responseData, rapdu);
    }
    status := if ok then Answered else TransmitError;
  }

  /** Cases 1 and 3 behind the first exchange. */
  method FinishCase13(card: Card, capdu: array<Byte>, responseData: array<Byte>, rapdu: array<Byte>)
    returns (ok: bool, rapduLength: nat)
    requires capdu.Length >= 5 && capdu != responseData && rapdu != responseData && rapdu != capdu
    requires rapdu.Length == responseData.Length && FirstAnswer(card.spec, card.state, responseData[..])
    requires card.spec.le == None
    modifies card, capdu, responseData, rapdu
    ensures !ok ==> |card.spec.response| + 2 > rapdu.Length
    ensures ok ==>
              && 2 <= rapduLength <= rapdu.Length && |card.state.firstSw| == 2
              && rapdu[..rapduLength - 2] + card.state.rest == card.spec.response
              && rapdu[rapduLength - 2..rapduLength] == card.state.lastSw
              && (card.state.asked <==> card.state.firstSw[0] == 0x61)
  {
    FirstSays(card.spec, card.state, responseData[..]);
    OnceExpected(card.spec, card.state, responseData[..]);
    hide Step, ValidState, Expects, FirstAnswer;
    assert responseData[..0] + card.state.rest == card.spec.response;
    ghost var s := card.state;
    ok, rapduLength := Deliver(card, capdu, responseData, 0, rapdu);
    if ok && s.firstSw[0] != MORE_DATA {
      assert rapdu[0..2] == rapdu[..2] == s.lastSw;
    }
  }

  lemma OnceExpected(k: CardSpec, s: CardState, data: Bytes)
    requires FirstAnswer(k, s, data) && k.le == None
    ensures ValidState(k, s) && |data| >= 2 && s.firstSw == s.lastSw
    ensures data[0] == MORE_DATA ==> Expects(k, s, GET_RESPONSE + [data[1]])
  {
    FirstSays(k, s, data);
  }

  /** Case 2 behind the first exchange. */
  method FinishCase2(
    card: Card, capdu: array<Byte>, le: Byte, responseData: array<Byte>, offset0: nat, rapdu: array<Byte>)
    returns (ok: bool, rapduLength: nat)
    requires capdu.Length >= 5 && capdu != responseData && rapdu != responseData && rapdu != capdu
    requires rapdu.Length == responseData.Length
    requires Collecting(card.spec, card.state, capdu[..5], responseData[..], offset0, le)
    modifies card, capdu, responseData, rapdu
    ensures !ok ==> |card.spec.response| + 2 > rapdu.Length
    ensures ok ==>
              && 2 <= rapduLength <= rapdu.Length
              && Collected(card.spec, card.state, rapdu[..], rapduLength - 2, le)
              && (LengthOf(le) == 256 ==> rapdu[..rapduLength] == card.spec.response + card.spec.finalSw)
  {
    hide Collecting, Collected, ValidState;
    rapduLength := 0;
    var offset;
    ok, offset := Collect(card, capdu, le, responseData, offset0, false, Gathering);
    if !ok {
      return;
    }
    CollectedForAnyLe(card.spec, card.state, responseData[..], offset, le, le);
    ghost var data := responseData[..];
    ok, rapduLength := Deliver(card, capdu, responseData, offset, rapdu);
    assert rapdu[..][..rapduLength] == rapdu[..rapduLength] == data[..rapduLength];
    CollectedCopies(card.spec, card.state, data, rapdu[..], offset, le);
    CollectedForAnyLe(card.spec, card.state, rapdu[..], offset, le, le);
  }

  /** Case 4 behind the first exchange. */
  method FinishCase4(card: Card, capdu: array<Byte>, le0: Byte, responseData: array<Byte>, rapdu: array<Byte>)
    returns (ok: bool, rapduLength: nat)
    requires capdu.Length >= 5 && capdu != responseData && rapdu != responseData && rapdu != capdu
    requires rapdu.Length == responseData.Length && FirstAnswer(card.spec, card.state, responseData[..])
    requires card.spec.le == Some(le0)
    modifies card, capdu, responseData, rapdu
    ensures !ok ==> |card.spec.response| + 2 > rapdu.Length
    ensures ok ==>
              && 2 <= rapduLength <= rapdu.Length && card.Valid() && |card.state.firstSw| == 2
              && rapdu[..rapduLength] == CaseFourAnswer(card.spec, card.state)
              && (card.state.atOnce ==> |card.spec.response| <= LengthOf(le0))
  {
    hide AtStage, Collected, Collecting, FirstAnswer;
    rapduLength := 0;
    var offset, le;
    ok, offset, le := AskAfterCase4(card, capdu, le0, responseData, rapdu);
    if !ok {
      return;
    }
    ghost var k, s, stage := card.spec, card.state, CaseFourStage(card.spec, card.state);
    ok, offset := Collect(card, capdu, le, responseData, offset, true, stage);
    if !ok {
      return;
    }
    if stage.Gathering? {
      CollectedForAnyLe(k, card.state, responseData[..], offset, le, le);
    }
    ghost var data := responseData[..];
    ok, rapduLength := Deliver(card, capdu, responseData, offset, rapdu);
    assert rapdu[..rapduLength] == data[..rapduLength];
  }
}
