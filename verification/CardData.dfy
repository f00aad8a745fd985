/**
 Card recognition data: `read_TLV`, the search for the template with tag 0x73, and the secure
 channel protocol that `GP211_get_secure_channel_protocol_details` reads from it.
 */
module CardData {
  import opened Options
  import opened ByteStrings

  /** A TLV object with a tag of one byte. */
  datatype Object = Object(tag: Byte, value: Bytes)

  type Tlv = t: Object | |t.value| <= 127 witness Object(0, [])

  const TEMPLATE: Byte := 0x73

  function Encoded(t: Tlv): (b: Bytes)
    ensures |b| == |t.value| + 2
  {
    [t.tag, |t.value|] + t.value
  }

  // ---------- reading one object ----------

  function FirstTlv(b: Bytes): Option<Tlv> {
    if |b| < 2 || b[1] > 127 || |b| - 2 < b[1] then None else Some(Object(b[0], b[2..2 + b[1]]))
  }

  /** An object is read exactly where its encoding stands. */
  lemma FirstTlvIff(b: Bytes, t: Tlv)
    ensures FirstTlv(b) == Some(t) <==> Encoded(t) <= b
  {
    if FirstTlv(b) == Some(t) {
      assert b[..2 + b[1]] == Encoded(t);
    }
    if Encoded(t) <= b {
      var e := b[..|Encoded(t)|];
      assert e == Encoded(t);
      assert e[0] == b[0] == t.tag && e[1] == b[1] == |t.value|;
      assert e[2..] == b[2..2 + b[1]] == t.value;
    }
  }

  /** `read_TLV`, which returns the length it consumed, or -1. */
  method ReadTlv(buffer: Bytes, length: nat) returns (result: int, tlv: Tlv)
    requires length <= |buffer|
    ensures result == match FirstTlv(buffer[..length]) case None => -1 case Some(t) => |Encoded(t)|
    ensures result != -1 ==> Some(tlv) == FirstTlv(buffer[..length])
  {
    tlv := Object(0, []);
    if length < 2 {
      return -1, tlv;
    }
    if buffer[1] > 127 {
      return -1, tlv;
    }
    if length - 2 < buffer[1] {
      return -1, tlv;
    }
    tlv := Object(buffer[0], buffer[2..2 + buffer[1]]);
    assert tlv.value == buffer[..length][2..2 + buffer[1]];
    result := |tlv.value| + 2;
  }

  // ---------- the search ----------

  /** The template on the way inwards from t: each object is looked for at the start of the one around it. */
  function Search(t: Tlv): Option<Tlv>
    decreases |t.value|
  {
    if t.tag == TEMPLATE then Some(t)
    else
      match FirstTlv(t.value)
      case None => None
      case Some(u) => Search(u)
  }

  /** Each object of the path starts the value of the one before, and only the last has tag 0x73. */
  ghost predicate Leads(path: seq<Tlv>) {
    && path != [] && path[|path| - 1].tag == 0x73
    && forall i :: 0 <= i < |path| - 1 ==> path[i].tag != 0x73 && Encoded(path[i + 1]) <= path[i].value
  }

  lemma {:induction false} SearchFollowsPath(path: seq<Tlv>)
    requires Leads(path)
    ensures Search(path[0]) == Some(path[|path| - 1])
    decreases |path|
  {
    if |path| > 1 {
      FirstTlvIff(path[0].value, path[1]);
      assert Leads(path[1..]);
      SearchFollowsPath(path[1..]);
    }
  }

  lemma {:induction false} SearchHasPath(t: Tlv) returns (path: seq<Tlv>)
    requires Search(t).Some?
    ensures Leads(path) && path[0] == t && path[|path| - 1] == Search(t).value
    decreases |t.value|
  {
    if t.tag == TEMPLATE {
      path := [t];
    } else {
      var u := FirstTlv(t.value).value;
      FirstTlvIff(t.value, u);
      var more := SearchHasPath(u);
      path := [t] + more;
    }
  }

  /** The template is found exactly if such a path leads to it. */
  lemma SearchIff(t: Tlv, u: Tlv)
    ensures Search(t) == Some(u) <==> exists path :: Leads(path) && path[0] == t && path[|path| - 1] == u
  {
    if Search(t) == Some(u) {
      var path := SearchHasPath(t);
    }
    forall path | Leads(path) && path[0] == t && path[|path| - 1] == u ensures Search(t) == Some(u) {
      SearchFollowsPath(path);
    }
  }

  // ---------- the template ----------

  /** Undefined stands for the read before the start of a buffer, whose result C leaves open. */
  datatype Details = Found(protocol: Byte, implementation: Byte) | InvalidResponse | Undefined

  /** The next object, and what stands behind it. */
  function Take(b: Bytes): Option<(Tlv, Bytes)> {
    match FirstTlv(b)
    case None => None
    case Some(t) => Some((t, b[|Encoded(t)|..]))
  }

  lemma TakeEncoded(t: Tlv, more: Bytes)
    ensures Take(Encoded(t) + more) == Some((t, more))
  {
    FirstTlvIff(Encoded(t) + more, t);
  }

  /** An object whose value starts with another object, whose value is the identifier. */
  function TakeWrapped(b: Bytes): Option<(Bytes, Bytes)> {
    match Take(b)
    case None => None
    case Some((t, rest)) =>
      match FirstTlv(t.value)
      case None => None
      case Some(u) => Some((u.value, rest))
  }

  /** Nothing, one object, or at least two. */
  predicate OptionalPart(b: Bytes) {
    b == [] || (Take(b).Some? && (Take(b).value.1 == [] || Take(Take(b).value.1).Some?))
  }

  /** The identifiers in the order they are expected; the last two bytes of the fourth are the answer. */
  function TemplateDetails(b: Bytes): Details {
    match Take(b)
    case None => InvalidResponse
    case Some((_, b1)) =>
      match TakeWrapped(b1)
      case None => InvalidResponse
      case Some((_, b2)) =>
        match TakeWrapped(b2)
        case None => InvalidResponse
        case Some((_, b3)) =>
          match TakeWrapped(b3)
          case None => InvalidResponse
          case Some((scp, b4)) =>
            if |scp| < 2 then Undefined
            else if OptionalPart(b4) then Found(scp[|scp| - 2], scp[|scp| - 1])
            else InvalidResponse
  }

  function DetailsOf(b: Bytes): Details {
    match FirstTlv(b)
    case None => InvalidResponse
    case Some(t) =>
      match Search(t)
      case None => InvalidResponse
      case Some(u) => TemplateDetails(u.value)
  }

  /** The object at an offset of the template. */
  method ReadAt(template: Bytes, start: nat) returns (ok: bool, tlv: Tlv, offset: nat)
    requires start <= |template|
    ensures ok <==> Take(template[start..]).Some?
    ensures ok ==> offset <= |template| && Take(template[start..]) == Some((tlv, template[offset..]))
  {
    offset := start;
    var here := template[start..];
    var result: int;
    result, tlv := ReadTlv(here, |template| - start);
    assert here[..|here|] == here;
    ok := result != -1;
    if ok {
      offset := offset + result;
      assert template[offset..] == here[result..];
    }
  }

  /** One object of the template that wraps an identifier. */
  method ReadWrapped(template: Bytes, start: nat) returns (ok: bool, id: Bytes, offset: nat)
    requires start <= |template|
    ensures ok <==> TakeWrapped(template[start..]).Some?
    ensures ok ==> offset <= |template| && TakeWrapped(template[start..]) == Some((id, template[offset..]))
  {
    var tlv1: Tlv;
    id := [];
    ok, tlv1, offset := ReadAt(template, start);
    if ok {
      var inner, tlv2 := ReadTlv(tlv1.value, |tlv1.value|);
      assert tlv1.value[..|tlv1.value|] == tlv1.value;
      ok, id := inner != -1, tlv2.value;
    }
  }

  /** The optional part: card configuration details, and then chip details. */
  method ReadOptions(template: Bytes, start: nat) returns (ok: bool)
    requires start <= |template|
    ensures ok <==> OptionalPart(template[start..])
  {
    var tlv: Tlv;
    var offset := start;
    ok := true;
    if |template| > offset {
      ok, tlv, offset := ReadAt(template, offset);
      if !ok {
        return;
      }
    }
    if |template| > offset {
      ok, tlv, offset := ReadAt(template, offset);
    }
  }

  /** `GP211_get_secure_channel_protocol_details`, on the card data that the card returned. */
  method ReadDetails(recvBuffer: Bytes) returns (details: Details)
    ensures details == DetailsOf(recvBuffer)
  {
    assert recvBuffer[..|recvBuffer|] == recvBuffer;
    var result, tlv1 := ReadTlv(recvBuffer, |recvBuffer|);
    if result == -1 {
      return InvalidResponse;
    }
    ghost var outer := tlv1;
    while tlv1.tag != TEMPLATE
      invariant Search(outer) == Search(tlv1)
      decreases |tlv1.value|
    {
      assert tlv1.value[..|tlv1.value|] == tlv1.value;
      var inner, tlv2 := ReadTlv(tlv1.value, |tlv1.value|);
      if inner == -1 {
        return InvalidResponse;
      }
      tlv1 := tlv2;
    }
    details := ReadTemplate(tlv1.value);
  }

  method ReadTemplate(template: Bytes) returns (details: Details)
    ensures details == TemplateDetails(template)
  {
    hide Take, TakeWrapped, OptionalPart;
    assert template[0..] == template;
    var ok, tlv, offset := ReadAt(template, 0);
    if !ok {
      return InvalidResponse;
    }
    var id: Bytes;
    ok, id, offset := ReadWrapped(template, offset);
    if !ok {
      return InvalidResponse;
    }
    ok, id, offset := ReadWrapped(template, offset);
    if !ok {
      return InvalidResponse;
    }
    ok, id, offset := ReadWrapped(template, offset);
    if !ok {
      return InvalidResponse;
    }
    if |id| < 2 {
      return Undefined;
    }
    details := Found(id[|id| - 2], id[|id| - 1]);
    ok := ReadOptions(template, offset);
    if !ok {
      return InvalidResponse;
    }
  }

  // ---------- card recognition data as a card sends it ----------

  /** An object identifier in an object of its own. */
  type Oid = b: Bytes | |b| <= 125 witness []

  function Identifier(tag: Byte, id: Oid): Tlv {
    Object(tag, Encoded(Object(6, id)))
  }

  /** The template in the expected order: card recognition, management, identification, secure channel, options. */
  function Recognition(card: Oid, management: Oid, identification: Oid, channel: Oid, options: seq<Tlv>): Bytes {
    Encoded(Object(6, card)) + (Encoded(Identifier(0x60, management)) + (Encoded(Identifier(0x63, identification))
    + (Encoded(Identifier(0x64, channel)) + EncodedAll(options))))
  }

  function EncodedAll(ts: seq<Tlv>): Bytes {
    if ts == [] then [] else Encoded(ts[0]) + EncodedAll(ts[1..])
  }

  lemma OptionsAreOptional(ts: seq<Tlv>)
    ensures OptionalPart(EncodedAll(ts))
  {
    if ts != [] {
      TakeEncoded(ts[0], EncodedAll(ts[1..]));
      if ts[1..] != [] {
        TakeEncoded(ts[1], EncodedAll(ts[1..][1..]));
      }
    }
  }

  lemma TakeIdentifier(tag: Byte, id: Oid, more: Bytes)
    ensures TakeWrapped(Encoded(Identifier(tag, id)) + more) == Some((id, more))
  {
    TakeEncoded(Identifier(tag, id), more);
    FirstTlvIff(Encoded(Object(6, id)), Object(6, id));
  }

  lemma RecognitionDetails(card: Oid, management: Oid, identification: Oid, channel: Oid, options: seq<Tlv>)
    ensures TemplateDetails(Recognition(card, management, identification, channel, options))
            == if |channel| < 2 then Undefined else Found(channel[|channel| - 2], channel[|channel| - 1])
  {
    var b4 := EncodedAll(options);
    OptionsAreOptional(options);
    var b3 := Encoded(Identifier(0x64, channel)) + b4;
    var b2 := Encoded(Identifier(0x63, identification)) + b3;
    var b1 := Encoded(Identifier(0x60, management)) + b2;
    TakeEncoded(Object(6, card), b1);
    TakeIdentifier(0x60, management, b2);
    TakeIdentifier(0x63, identification, b3);
    TakeIdentifier(0x64, channel, b4);
    hide Take, TakeWrapped, Encoded, EncodedAll, OptionalPart, FirstTlv;
  }

  /**
   From card data with the template at any depth, the secure channel protocol and its
   implementation are the last two bytes of the channel's identifier; without two bytes the
   outcome is undefined.
   */
  lemma RecognitionReadsBack(b: Bytes, path: seq<Tlv>, card: Oid, management: Oid, identification: Oid,
                             channel: Oid, options: seq<Tlv>)
    requires Leads(path) && Encoded(path[0]) <= b
    requires path[|path| - 1].value == Recognition(card, management, identification, channel, options)
    ensures DetailsOf(b) == if |channel| < 2 then Undefined
                            else Found(channel[|channel| - 2], channel[|channel| - 1])
  {
    hide TemplateDetails, Recognition;
    FirstTlvIff(b, path[0]);
    SearchFollowsPath(path);
    RecognitionDetails(card, management, identification, channel, options);
  }
}
