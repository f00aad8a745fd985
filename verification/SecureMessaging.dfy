/**
 GlobalPlatform secure messaging: `wrap_command` for the variants with the C-MAC on the
 modified APDU, and the receiver of Appendix E.4.4 and E.4.6 of the GlobalPlatform Card
 Specification 2.1.1.
 */
module SecureMessaging {
  import opened Options
  import opened ByteStrings
  import opened BlockCiphers
  import opened CardCrypto

  // ---------- commands ----------

  datatype Command = Command(cla: Byte, ins: Byte, p1: Byte, p2: Byte, data: Bytes, le: Option<Byte>)

  function LeBytes(le: Option<Byte>): Bytes {
    if le.Some? then [le.value] else []
  }

  /** A short command APDU: case 1 or 2 without data, case 3 or 4 with. */
  function Encode(c: Command): Bytes {
    [c.cla, c.ins, c.p1, c.p2] + (if c.data == [] then [] else [|c.data| % 256] + c.data) + LeBytes(c.le)
  }

  /** The four short cases, told apart by the length alone. */
  function Decode(apdu: Bytes): Option<Command>
    requires |apdu| >= 4
  {
    var cla, ins, p1, p2 := apdu[0], apdu[1], apdu[2], apdu[3];
    if |apdu| == 4 then Some(Command(cla, ins, p1, p2, [], None))
    else if |apdu| == 5 then Some(Command(cla, ins, p1, p2, [], Some(apdu[4])))
    else
      var n := LengthOf(apdu[4]);
      if n + 5 == |apdu| then Some(Command(cla, ins, p1, p2, apdu[5..], None))
      else if n + 6 == |apdu| then Some(Command(cla, ins, p1, p2, apdu[5..5 + n], Some(apdu[5 + n])))
      else None
  }

  lemma DecodeInvertsEncode(c: Command)
    requires |c.data| <= 256
    ensures Decode(Encode(c)) == Some(c)
  {
    var apdu := Encode(c);
    if c.data == [] {
      assert apdu == [c.cla, c.ins, c.p1, c.p2] + LeBytes(c.le);
    } else {
      assert apdu[5..5 + |c.data|] == c.data;
      assert c.le.None? ==> apdu[5..] == c.data;
    }
  }

  lemma EncodeInvertsDecode(apdu: Bytes)
    requires |apdu| >= 4 && Decode(apdu).Some?
    ensures Encode(Decode(apdu).value) == apdu && |Decode(apdu).value.data| <= 256
  {
    var c := Decode(apdu).value;
    if |apdu| > 5 {
      assert apdu == apdu[..4] + [apdu[4]] + apdu[5..];
      assert apdu[..4] == [c.cla, c.ins, c.p1, c.p2];
      assert c.le.Some? ==> apdu[5..] == c.data + [c.le.value];
    }
  }

  // ---------- sessions ----------

  datatype Protocol = Scp01 | Scp02

  const NO_SECURE_MESSAGING: Byte := 0x00
  const C_MAC: Byte := 0x01
  const C_DEC_C_MAC: Byte := 0x03
  const C_MAC_R_MAC: Byte := 0x11
  const C_DEC_C_MAC_R_MAC: Byte := 0x13

  datatype Session = Session(
    des: Des, protocol: Protocol, impl: Byte, level: Byte, macKey: Bytes, encryptionKey: Bytes)

  /** The implementation options with the C-MAC on the modified APDU. SCP01 shares the values 05 and 15. */
  predicate MacOnModifiedApdu(impl: Byte) {
    impl in {0x04, 0x05, 0x14, 0x15, 0x44, 0x45, 0x54, 0x55}
  }

  predicate EncryptsIcv(s: Session) {
    match s.protocol
    case Scp02 => s.impl in {0x14, 0x15, 0x54, 0x55}
    case Scp01 => s.impl == 0x15
  }

  predicate Encrypts(s: Session) {
    s.level == C_DEC_C_MAC || s.level == C_DEC_C_MAC_R_MAC
  }

  ghost predicate Usable(s: Session) {
    IsDes(s.des) && MacOnModifiedApdu(s.impl)
  }

  function Icv(s: Session, last: Bytes): Bytes {
    if !EncryptsIcv(s) then last
    else
      match s.protocol
      case Scp02 => SingleDes(s.des, LeftHalf(s.macKey))(last)
      case Scp01 => TripleDes(s.des, s.macKey)(last)
  }

  function Mac(s: Session, last: Bytes, m: Bytes): Bytes {
    match s.protocol
    case Scp02 => MacAlgorithm3(s.des, s.macKey, Icv(s, last), m)
    case Scp01 => MacTripleDes(s.des, s.macKey, Icv(s, last), m)
  }

  /** The class byte with the bit for secure messaging. */
  function Secured(cla: Byte): Byte {
    if cla / 4 % 2 == 1 then cla else cla + 4
  }

  /** Bit 2 is set, and the others stay. */
  lemma SecuredBits(cla: Byte, i: nat)
    requires i < 8
    ensures BitOf(Secured(cla), i) == if i == 2 then 1 else BitOf(cla, i)
  {
    var n: int := cla;
    if n / 4 % 2 == 0 {
      assert (n + 4) / 8 == n / 8 && (n + 4) / 4 % 2 == 1 && (n + 4) / 2 % 2 == n / 2 % 2;
    }
    LowBits(cla, i);
    LowBits(Secured(cla), i);
    hide BitOf;
  }

  lemma LowBits(n: nat, i: nat)
    ensures BitOf(n, i) == if i == 0 then n % 2 else if i == 1 then n / 2 % 2 else if i == 2 then n / 4 % 2
                           else BitOf(n / 8, i - 3)
  {
    assert n / 2 / 2 == n / 4 && n / 4 / 2 == n / 8;
    if i >= 1 {
      assert BitOf(n, i) == BitOf(n / 2, i - 1);
    }
    if i >= 2 {
      assert BitOf(n / 2, i - 1) == BitOf(n / 4, i - 2);
    }
    if i >= 3 {
      assert BitOf(n / 4, i - 2) == BitOf(n / 8, i - 3);
    }
  }

  /** The modified APDU under the C-MAC: its length byte counts the eight bytes of the C-MAC. */
  function MacInput(c: Command): Bytes {
    [Secured(c.cla), c.ins, c.p1, c.p2, (|c.data| + 8) % 256] + c.data
  }

  function CMac(s: Session, last: Bytes, c: Command): Bytes {
    Mac(s, last, MacInput(c))
  }

  /** What is encrypted: SCP02 always pads the data; SCP01 puts the length in front and pads if needed. */
  function Plaintext(s: Session, data: Bytes): Bytes {
    match s.protocol
    case Scp02 => PadMethod2(data)
    case Scp01 => PadIfNeeded([|data| % 256] + data)
  }

  function Ciphertext(s: Session, data: Bytes): Bytes {
    Cbc(TripleDes(s.des, s.encryptionKey), 8, ICV, Plaintext(s, data))
  }

  function Body(s: Session, data: Bytes): Bytes {
    if Encrypts(s) then Ciphertext(s, data) else data
  }

  /** The wrapped command. */
  function Wrapped(s: Session, last: Bytes, c: Command): Bytes {
    var body := Body(s, c.data);
    [Secured(c.cla), c.ins, c.p1, c.p2, (|body| + 8) % 256] + body + CMac(s, last, c) + LeBytes(c.le)
  }

  // ---------- the receiver ----------

  /** Undoes the encryption of a command body. */
  function Decrypted(s: Session, body: Bytes): Option<Bytes> {
    if s.level !in {0x03, 0x13} then Some(body)
    else
      var p := CbcDecrypt(TripleDesInverse(s.des, s.encryptionKey), 8, [0, 0, 0, 0, 0, 0, 0, 0], body);
      match s.protocol
      case Scp02 => Some(UnpadMethod2(p))
      case Scp01 => if p != [] && p[0] < |p| then Some(p[1..1 + p[0]]) else None
  }

  /**
   The C-MAC by Appendix E.4.4: over the header, the length with the C-MAC, and the plain data,
   from the last C-MAC, which the implementation options 14, 15, 54 and 55 encrypt first.
   */
  function ExpectedMac(s: Session, last: Bytes, header: Bytes, data: Bytes): Bytes {
    var m := header + [(|data| + 8) % 256] + data;
    match s.protocol
    case Scp02 =>
      var icv := if s.impl in {0x14, 0x15, 0x54, 0x55} then s.des.enc(LeftHalf(s.macKey), last) else last;
      MacAlgorithm3(s.des, s.macKey, icv, m)
    case Scp01 =>
      var icv := if s.impl == 0x15 then TripleDes(s.des, s.macKey)(last) else last;
      MacTripleDes(s.des, s.macKey, icv, m)
  }

  /** Takes a wrapped command apart, decrypts it, and checks its C-MAC. */
  function Unwrap(s: Session, last: Bytes, w: Bytes): Option<(Command, Bytes)> {
    if |w| < 13 then None
    else
      var lc: nat := w[4];
      if lc < 8 || !(|w| == 5 + lc || |w| == 6 + lc) then None
      else
        var end := lc - 3;
        var le := if |w| == 6 + lc then Some(w[5 + lc]) else None;
        match Decrypted(s, w[5..end])
        case None => None
        case Some(data) =>
          var c := Command(w[0], w[1], w[2], w[3], data, le);
          var mac := w[end..end + 8];
          if mac == ExpectedMac(s, last, w[..4], data) then Some((c, mac)) else None
  }

  // ---------- the receiver reads what was wrapped ----------

  lemma MacLength(s: Session, last: Bytes, m: Bytes)
    requires IsDes(s.des)
    ensures |Mac(s, last, m)| == 8
  {
    MacLengths(s.des, s.macKey, Icv(s, last), m);
  }

  lemma PlaintextLength(s: Session, data: Bytes)
    ensures |Plaintext(s, data)| % 8 == 0
    ensures s.protocol.Scp02? ==> |Plaintext(s, data)| == |data| / 8 * 8 + 8
    ensures s.protocol.Scp01? ==> |Plaintext(s, data)| == (|data| + 8) / 8 * 8
  {
  }

  lemma CiphertextDecrypts(s: Session, data: Bytes)
    requires IsDes(s.des) && |data| < 256
    ensures |Ciphertext(s, data)| == |Plaintext(s, data)|
    ensures Encrypts(s) ==> Decrypted(s, Ciphertext(s, data)) == Some(data)
  {
    var p := Plaintext(s, data);
    PlaintextLength(s, data);
    PlaintextReads(s, data);
    hide Plaintext, UnpadMethod2, CbcDecrypt, Cbc, Inverse, IsDes, Aligned, TripleDes, TripleDesInverse;
    TripleDesIsInvertible(s.des, s.encryptionKey);
    AlignedBy8(p);
    CbcRoundTrip(TripleDes(s.des, s.encryptionKey), TripleDesInverse(s.des, s.encryptionKey), 8, ICV, p);
  }

  lemma PlaintextReads(s: Session, data: Bytes)
    requires |data| < 256
    ensures var p := Plaintext(s, data);
            match s.protocol
            case Scp02 => UnpadMethod2(p) == data
            case Scp01 => p != [] && p[0] < |p| && p[1..1 + p[0]] == data
  {
    match s.protocol
    case Scp02 => UnpadPad(data);
    case Scp01 => LengthInFront(data);
  }

  lemma LengthInFront(data: Bytes)
    requires |data| < 256
    ensures var p := PadIfNeeded([|data| % 256] + data);
            p != [] && p[0] == |data| < |p| && p[1..1 + |data|] == data
  {
    assert PadIfNeeded([|data| % 256] + data)[..1 + |data|] == [|data| % 256] + data;
  }

  /** The longest data that fits under the C-MAC, and under the cipher as well. */
  function MaxData(s: Session): nat {
    if Encrypts(s) then 239 else 247
  }

  /**
   The receiver with the same keys and the same last C-MAC accepts a wrapped command, gets the
   header (with the secure messaging bit), the data and Le back, and takes over the same C-MAC.
   */
  lemma UnwrapInvertsWrapped(s: Session, last: Bytes, c: Command)
    requires Usable(s) && |c.data| <= MaxData(s)
    ensures Unwrap(s, last, Wrapped(s, last, c)) == Some((c.(cla := Secured(c.cla)), CMac(s, last, c)))
  {
    hide Mac, Body, Wrapped, Decrypted, IsDes, Encrypts, MacInput;
    MacLength(s, last, MacInput(c));
    BodyReads(s, c.data);
    WrappedParts(s, last, c);
    ExpectedIsSent(s, last, c);
    hide CMac, Secured, ExpectedMac;
  }

  /** The receiver expects the C-MAC that the sender computes. */
  lemma ExpectedIsSent(s: Session, last: Bytes, c: Command)
    ensures ExpectedMac(s, last, [Secured(c.cla), c.ins, c.p1, c.p2], c.data) == CMac(s, last, c)
  {
    hide MacAlgorithm3, MacTripleDes;
    assert [Secured(c.cla), c.ins, c.p1, c.p2] + [(|c.data| + 8) % 256] + c.data == MacInput(c);
  }

  lemma BodyReads(s: Session, data: Bytes)
    requires Usable(s) && |data| <= MaxData(s)
    ensures |Body(s, data)| <= 247 && Decrypted(s, Body(s, data)) == Some(data)
  {
    CiphertextDecrypts(s, data);
    PlaintextLength(s, data);
    hide Ciphertext, Plaintext;
  }

  lemma WrappedParts(s: Session, last: Bytes, c: Command)
    requires |CMac(s, last, c)| == 8 && |Body(s, c.data)| <= 247
    ensures var w, lc := Wrapped(s, last, c), |Body(s, c.data)| + 8;
            && |w| == 5 + lc + (if c.le.Some? then 1 else 0) && w[4] == lc
            && w[..4] == [Secured(c.cla), c.ins, c.p1, c.p2]
            && w[5..lc - 3] == Body(s, c.data) && w[lc - 3..lc + 5] == CMac(s, last, c)
            && (c.le.Some? ==> w[5 + lc] == c.le.value)
  {
    hide Body, CMac;
  }

  /** Without encryption 247 bytes are exactly the limit: behind it no receiver accepts the text. */
  lemma PlainUnwrapLimit(s: Session, last: Bytes, c: Command)
    requires Usable(s) && !Encrypts(s) && |c.data| <= 256
    ensures Unwrap(s, last, Wrapped(s, last, c)).Some? <==> |c.data| <= 247
  {
    if |c.data| <= 247 {
      UnwrapInvertsWrapped(s, last, c);
    } else {
      MacLength(s, last, MacInput(c));
    }
  }

  lemma CiphertextLength(s: Session, data: Bytes)
    requires IsDes(s.des)
    ensures |Ciphertext(s, data)| == |Plaintext(s, data)|
  {
    hide Cbc, CbcDecrypt, Inverse, IsDes, Aligned, TripleDes, TripleDesInverse;
    var p := Plaintext(s, data);
    PlaintextLength(s, data);
    TripleDesIsInvertible(s.des, s.encryptionKey);
    AlignedBy8(p);
    CbcRoundTrip(TripleDes(s.des, s.encryptionKey), TripleDesInverse(s.des, s.encryptionKey), 8, ICV, p);
  }

  /** With encryption the limit is 239 bytes, in either protocol. */
  lemma EncryptedUnwrapLimit(s: Session, last: Bytes, c: Command)
    requires Usable(s) && Encrypts(s) && |c.data| <= 256
    ensures Unwrap(s, last, Wrapped(s, last, c)).Some? <==> |c.data| <= 239
  {
    if |c.data| <= 239 {
      UnwrapInvertsWrapped(s, last, c);
    } else {
      hide IsDes, Mac, MacInput, Plaintext, Ciphertext;
      MacLength(s, last, MacInput(c));
      CiphertextLength(s, c.data);
      PlaintextLength(s, c.data);
      assert |CMac(s, last, c)| == 8 && |Body(s, c.data)| >= 240;
      hide CMac, Decrypted, Body, Encrypts, Unwrap;
      TooLongToUnwrap(s, last, Wrapped(s, last, c), |Body(s, c.data)| + 8, if c.le.Some? then 1 else 0);
    }
  }

  /** A length byte cannot say more than 255. */
  lemma TooLongToUnwrap(s: Session, last: Bytes, w: Bytes, lc: nat, le: nat)
    requires 255 < lc < 512 && le <= 1 && |w| == 5 + lc + le && w[4] == lc % 256
    ensures Unwrap(s, last, w).None?
  {
    hide Decrypted, ExpectedMac;
  }

  // ---------- whole sessions ----------

  /** The wrapped commands of a session, each under the C-MAC of the one before. */
  function WrapAll(s: Session, last: Bytes, cs: seq<Command>): seq<Bytes>
    decreases |cs|
  {
    if cs == [] then [] else [Wrapped(s, last, cs[0])] + WrapAll(s, CMac(s, last, cs[0]), cs[1..])
  }

  function LastMac(s: Session, last: Bytes, cs: seq<Command>): Bytes
    decreases |cs|
  {
    if cs == [] then last else LastMac(s, CMac(s, last, cs[0]), cs[1..])
  }

  /** What a receiver makes of a whole session, with the C-MAC it ends on. */
  function UnwrapAll(s: Session, last: Bytes, ws: seq<Bytes>): Option<(seq<Command>, Bytes)>
    decreases |ws|
  {
    if ws == [] then Some(([], last))
    else
      match Unwrap(s, last, ws[0])
      case None => None
      case Some((c, mac)) =>
        match UnwrapAll(s, mac, ws[1..])
        case None => None
        case Some((cs, end)) => Some(([c] + cs, end))
  }

  function SecuredAll(cs: seq<Command>): seq<Command> {
    if cs == [] then [] else [cs[0].(cla := Secured(cs[0].cla))] + SecuredAll(cs[1..])
  }

  /** Over any sequence of commands the receiver accepts every C-MAC and stays in step. */
  lemma {:induction false} ReceiverStaysInStep(s: Session, last: Bytes, cs: seq<Command>)
    requires Usable(s) && forall i :: 0 <= i < |cs| ==> |cs[i].data| <= MaxData(s)
    ensures UnwrapAll(s, last, WrapAll(s, last, cs)) == Some((SecuredAll(cs), LastMac(s, last, cs)))
    decreases |cs|
  {
    if cs != [] {
      var ws := WrapAll(s, last, cs);
      UnwrapInvertsWrapped(s, last, cs[0]);
      ReceiverStaysInStep(s, CMac(s, last, cs[0]), cs[1..]);
      assert ws[1..] == WrapAll(s, CMac(s, last, cs[0]), cs[1..]);
    }
  }
}
