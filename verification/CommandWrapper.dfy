/**
 `wrap_command` as the source runs it: in place, in the caller's buffer, against the
 wrapped command of the secure messaging model.
 */
module CommandWrapper {
  import opened Options
  import opened ByteStrings
  import opened BlockCiphers
  import opened CardCrypto
  import opened SecureMessaging

  /**
   How a call ends. Overrun is the case C leaves undefined: a write behind the caller's
   buffer, or a ciphertext longer than the 240 bytes of the local one.
   */
  datatype Status = Success | InsufficientBuffer | UnrecognizedApdu | TooLarge | Overrun

  /** The size limits of the source, on the length of the APDU without Le. */
  predicate TooLong(s: Session, c: Command) {
    var length := |c.data| + 5;
    var extra := if c.le.Some? then 1 else 0;
    c.data != []
    && ((Encrypts(s) && length > 239 + 8 + 5 + extra)
        || ((s.level == C_MAC || s.level == C_MAC_R_MAC) && length > 247 + 8 + 5 + extra))
  }

  /** The status before the C-MAC is taken over: what is refused leaves the session as it was. */
  function Refusal(s: Session, apdu: Bytes, capacity: nat): Status
    requires |apdu| >= 4
  {
    if capacity < |apdu| then InsufficientBuffer
    else if s.level == NO_SECURE_MESSAGING then Success
    else
      match Decode(apdu)
      case None => UnrecognizedApdu
      case Some(c) =>
        if TooLong(s, c) then TooLarge
        else if capacity < (if c.data == [] then |apdu| + 9 else |c.data| + 13) then InsufficientBuffer
        else if capacity == |c.data| + 13 && c.data != [] && c.le.Some? then Overrun
        else Success
  }

  /** The status of the encryption that follows. */
  function EncryptionStatus(s: Session, c: Command, capacity: nat): Status {
    if !Encrypts(s) then Success
    else if |Ciphertext(s, c.data)| > 240 then Overrun
    else if capacity < |Ciphertext(s, c.data)| + 13 + |LeBytes(c.le)| then InsufficientBuffer
    else Success
  }

  /** The status of a call. */
  function Ending(s: Session, apdu: Bytes, capacity: nat): Status
    requires |apdu| >= 4
  {
    if Refusal(s, apdu, capacity) != Success then Refusal(s, apdu, capacity)
    else if s.level == NO_SECURE_MESSAGING then Success
    else EncryptionStatus(s, Decode(apdu).value, capacity)
  }

  /** Whether a call takes over the C-MAC of its command: the check of the encryption comes later. */
  predicate TakesOverMac(s: Session, apdu: Bytes, capacity: nat)
    requires |apdu| >= 4
  {
    Refusal(s, apdu, capacity) == Success && s.level != NO_SECURE_MESSAGING
  }

  /**
   A call can fail after it has taken over the C-MAC, and then host and card are out of step.
   It does so exactly where there was room for the C-MAC, but not for the encryption.
   */
  lemma FailsOutOfStep(s: Session, apdu: Bytes, capacity: nat)
    requires |apdu| >= 4 && Usable(s) && Decode(apdu).Some?
    ensures var c := Decode(apdu).value;
            var length := if s.protocol.Scp02? then |c.data| / 8 * 8 + 8 else (|c.data| + 8) / 8 * 8;
            Ending(s, apdu, capacity) != Success && TakesOverMac(s, apdu, capacity)
            <==> Refusal(s, apdu, capacity) == Success && Encrypts(s)
                 && (length > 240 || capacity < length + 13 + |LeBytes(c.le)|)
  {
    var c := Decode(apdu).value;
    CiphertextLength(s, c.data);
    PlaintextLength(s, c.data);
    hide Ciphertext, Plaintext, Decode, Refusal;
  }

  /** One byte of data under SCP02, level 03, into 14 bytes: the C-MAC fits, the ciphertext does not. */
  lemma FailsOutOfStepExample(s: Session)
    requires Usable(s) && s.protocol.Scp02? && s.level == C_DEC_C_MAC
    ensures var apdu := [0x80, 0xE2, 0x80, 0x00, 0x01, 0xFF];
            Ending(s, apdu, 14) == InsufficientBuffer && TakesOverMac(s, apdu, 14)
  {
    var c := Command(0x80, 0xE2, 0x80, 0x00, [0xFF], None);
    assert Encode(c) == [0x80, 0xE2, 0x80, 0x00, 0x01, 0xFF];
    DecodeInvertsEncode(c);
    CiphertextLength(s, c.data);
    PlaintextLength(s, c.data);
  }

  /** Which refusal comes when: the limits in bytes of data, behind the check of the buffer. */
  lemma RefusalKinds(s: Session, c: Command, capacity: nat)
    requires s.level != 0x00 && |c.data| <= 256
    ensures var more := if c.le.Some? then 1 else 0;
            Refusal(s, Encode(c), capacity) == TooLarge
            <==> && capacity >= |Encode(c)|
                 && ((s.level in {0x03, 0x13} && |c.data| > 247 + more)
                     || (s.level in {0x01, 0x11} && |c.data| > 255 + more))
  {
    DecodeInvertsEncode(c);
    hide Decode;
  }

  /** An APDU that is none of the four cases. */
  lemma UnrecognizedIff(s: Session, apdu: Bytes, capacity: nat)
    requires s.level != 0x00 && |apdu| >= 4
    ensures Refusal(s, apdu, capacity) == UnrecognizedApdu
            <==> && capacity >= |apdu| > 5
                 && var lc: int := if apdu[4] == 0 then 256 else apdu[4]; |apdu| != lc + 5 && |apdu| != lc + 6
  {
  }

  /**
   A command is wrapped exactly if the wrapped command fits the buffer and, with encryption, the
   data has at most 239 bytes; with C-MAC only, 256 bytes of data are refused unless Le follows.
   */
  lemma SucceedsIffItFits(s: Session, last: Bytes, c: Command, capacity: nat)
    requires Usable(s) && s.level != 0x00 && |c.data| <= 256
    ensures Ending(s, Encode(c), capacity) == Success
            <==> && |Wrapped(s, last, c)| <= capacity
                 && (s.level in {0x03, 0x13} ==> |c.data| <= 239)
                 && (s.level in {0x01, 0x11} && c.le.None? ==> |c.data| <= 255)
  {
    DecodeInvertsEncode(c);
    CiphertextLength(s, c.data);
    PlaintextLength(s, c.data);
    MacLength(s, last, MacInput(c));
    hide Ciphertext, Plaintext, Decode, CMac, Mac, MacInput, IsDes;
    assert |CMac(s, last, c)| == 8 by {
      CMacIs(s, last, c);
    }
    WrappedLength(s, last, c);
    hide Wrapped, Body;
  }

  lemma CMacIs(s: Session, last: Bytes, c: Command)
    ensures CMac(s, last, c) == Mac(s, last, MacInput(c))
  {
  }

  lemma WrappedLength(s: Session, last: Bytes, c: Command)
    requires |CMac(s, last, c)| == 8
    ensures |Wrapped(s, last, c)| == (if Encrypts(s) then |Ciphertext(s, c.data)| else |c.data|) + 13 + |LeBytes(c.le)|
  {
    hide CMac, Ciphertext;
  }

  class SecurityInfo {
    const session: Session
    var lastCMac: Bytes

    constructor (session: Session)
      ensures this.session == session && lastCMac == [0, 0, 0, 0, 0, 0, 0, 0]
    {
      this.session := session;
      lastCMac := ICV;
    }
  }

  /** `wrap_command`. */
  method WrapCommand(sec: SecurityInfo, apdu: Bytes, wrapped: array<Byte>) returns (status: Status, length: nat)
    requires |apdu| >= 4 && Usable(sec.session) && |sec.lastCMac| == 8
    modifies sec, wrapped
    ensures |sec.lastCMac| == 8
    ensures status == Ending(sec.session, apdu, wrapped.Length)
    ensures sec.lastCMac == if TakesOverMac(sec.session, apdu, wrapped.Length)
                            then CMac(sec.session, old(sec.lastCMac), Decode(apdu).value)
                            else old(sec.lastCMac)
    ensures status == Success ==>
              && length <= wrapped.Length
              && wrapped[..length] == if sec.session.level == NO_SECURE_MESSAGING then apdu
                                      else Wrapped(sec.session, old(sec.lastCMac), Decode(apdu).value)
  {
    hide Decode, TooLong, CMac, MacInput, Wrapped, Ciphertext, EncryptedApdu, Usable;
    length := 0;
    if wrapped.Length < |apdu| {
      return InsufficientBuffer, 0;
    }
    CopyInto(wrapped, 0, apdu);
    assert wrapped[..|apdu|] == apdu;
    if sec.session.level == NO_SECURE_MESSAGING {
      return Success, |apdu|;
    }
    var c := Decode(apdu);
    if c.None? {
      return UnrecognizedApdu, 0;
    }
    if TooLong(sec.session, c.value) {
      return TooLarge, 0;
    }
    WrappedIs(sec.session, sec.lastCMac, c.value);
    status, length := AppendMac(sec, apdu, wrapped);
    if status != Success || !Encrypts(sec.session) {
      return;
    }
    status, length := EncryptBody(sec.session, c.value, sec.lastCMac, wrapped, length);
  }

  lemma WrappedIs(s: Session, last: Bytes, c: Command)
    ensures Wrapped(s, last, c)
         == if Encrypts(s) then EncryptedApdu(c, Ciphertext(s, c.data), CMac(s, last, c))
            else MacInput(c) + CMac(s, last, c) + LeBytes(c.le)
  {
    hide Ciphertext, CMac;
  }

  /** Its first half: the secure messaging bit, the length byte, the C-MAC and Le. */
  method AppendMac(sec: SecurityInfo, apdu: Bytes, wrapped: array<Byte>) returns (status: Status, length: nat)
    requires Usable(sec.session) && |sec.lastCMac| == 8 && 4 <= |apdu| <= wrapped.Length && Decode(apdu).Some?
    requires wrapped[..|apdu|] == apdu
    requires sec.session.level != NO_SECURE_MESSAGING && !TooLong(sec.session, Decode(apdu).value)
    modifies sec, wrapped
    ensures |sec.lastCMac| == 8
    ensures status == Refusal(sec.session, apdu, wrapped.Length)
    ensures status != Success ==> sec.lastCMac == old(sec.lastCMac)
    ensures status == Success ==>
              var c := Decode(apdu).value;
              var mac := CMac(sec.session, old(sec.lastCMac), c);
              && sec.lastCMac == mac && length <= wrapped.Length
              && wrapped[..length] == MacInput(c) + mac + LeBytes(c.le)
  {
    ghost var c := Decode(apdu).value;
    DecodeCases(apdu);
    MacLength(sec.session, sec.lastCMac, MacInput(c));
    hide Decode, TooLong, Usable, Icv, Mac, MacInput, Secured;
    length := 0;
    var le: Option<Byte> := None;
    var wrappedLength: nat;
    if |apdu| <= 5 {
      // case 1 or 2
      if |apdu| == 5 {
        le := Some(apdu[4]);
      }
      if wrapped.Length < |apdu| + 9 {
        return InsufficientBuffer, 0;
      }
      wrappedLength := 13;
      wrapped[4] := 0x08;
    } else {
      // case 3 or 4
      var n := LengthOf(apdu[4]);
      if n + 6 == |apdu| {
        le := Some(apdu[|apdu| - 1]);
      }
      if wrapped.Length < n + 13 {
        return InsufficientBuffer, 0;
      }
      wrappedLength := n + 13;
      var lc: int := wrapped[4];
      wrapped[4] := (lc + 8) % 256;
    }
    wrapped[0] := Secured(apdu[0]);
    MacInputInPlace(apdu, wrapped[..], wrappedLength - 8);
    if wrappedLength == wrapped.Length && le.Some? {
      return Overrun, 0;
    }
    var icv := ComputeIcv(sec);
    var mac := ComputeMac(sec.session, sec.lastCMac, icv, wrapped[..wrappedLength - 8]);
    sec.lastCMac := mac;
    length := PutTrailer(wrapped, wrappedLength, mac, le);
    return Success, length;
  }

  /** The C-MAC up to the given length, and Le behind it. */
  method PutTrailer(wrapped: array<Byte>, wrappedLength: nat, mac: Bytes, le: Option<Byte>) returns (length: nat)
    requires |mac| == 8 <= wrappedLength && wrappedLength + |LeBytes(le)| <= wrapped.Length
    modifies wrapped
    ensures length == wrappedLength + |LeBytes(le)|
    ensures wrapped[..length] == old(wrapped[..wrappedLength - 8]) + mac + LeBytes(le)
  {
    CopyInto(wrapped, wrappedLength - 8, mac);
    length := wrappedLength;
    if le.Some? {
      ghost var before := wrapped[..wrappedLength];
      wrapped[wrappedLength] := le.value;
      assert wrapped[..wrappedLength + 1] == before + [le.value];
      length := length + 1;
    }
  }

  lemma DecodeCases(apdu: Bytes)
    requires |apdu| >= 4 && Decode(apdu).Some?
    ensures var c := Decode(apdu).value;
            && (c.data == [] <==> |apdu| <= 5)
            && (|apdu| <= 5 ==> c.le == if |apdu| == 5 then Some(apdu[4]) else None)
            && (|apdu| > 5 ==>
                  var n := LengthOf(apdu[4]);
                  && |c.data| == n && (|apdu| == n + 5 || |apdu| == n + 6)
                  && c.le == if |apdu| == n + 6 then Some(apdu[|apdu| - 1]) else None)
  {
  }

  lemma MacInputInPlace(apdu: Bytes, w: Bytes, n: nat)
    requires |apdu| >= 4 && Decode(apdu).Some?
    requires n == |Decode(apdu).value.data| + 5 <= |w|
    requires w[0] == Secured(apdu[0]) && w[1] == apdu[1] && w[2] == apdu[2] && w[3] == apdu[3]
    requires |apdu| <= 5 ==> w[4] == 8
    requires |apdu| > 5 ==> w[4] == (LengthOf(apdu[4]) + 8) % 256 && w[5..n] == apdu[5..n]
    ensures w[..n] == MacInput(Decode(apdu).value)
  {
    var c := Decode(apdu).value;
    assert w[..n] == [w[0], w[1], w[2], w[3], w[4]] + w[5..n];
    if |apdu| > 5 {
      assert w[5..n] == c.data;
    }
  }

  /** The chaining value of the C-MAC: the last C-MAC, encrypted in some of the variants. */
  method ComputeIcv(sec: SecurityInfo) returns (icv: Bytes)
    requires |sec.lastCMac| == 8
    ensures icv == Icv(sec.session, sec.lastCMac)
  {
    var s := sec.session;
    if s.protocol.Scp02? {
      if s.impl in {0x14, 0x15, 0x54, 0x55} {
        icv := CalculateEncEcbSingleDes(s.des, s.macKey, sec.lastCMac);
        OneBlock(SingleDes(s.des, LeftHalf(s.macKey)), [], sec.lastCMac);
      } else {
        icv := sec.lastCMac;
      }
    } else {
      if s.impl == 0x15 {
        icv := CalculateEncEcbTripleDes(s.des, s.macKey, sec.lastCMac);
        OneBlock(TripleDes(s.des, s.macKey), [], sec.lastCMac);
      } else {
        icv := sec.lastCMac;
      }
    }
  }

  method ComputeMac(s: Session, ghost last: Bytes, icv: Bytes, m: Bytes) returns (mac: Bytes)
    requires icv == Icv(s, last)
    ensures mac == Mac(s, last, m)
  {
    match s.protocol
    case Scp02 => mac := CalculateMacDes3Des(s.des, s.macKey, m, icv);
    case Scp01 => mac := CalculateMac(s.des, s.macKey, m, icv);
  }

  /** Its second half: the body between the length byte and the C-MAC gives way to its ciphertext. */
  method EncryptBody(s: Session, c: Command, mac: Bytes, wrapped: array<Byte>, macLength: nat)
    returns (status: Status, length: nat)
    requires |mac| == 8 && macLength <= wrapped.Length
    requires wrapped[..macLength] == MacInput(c) + mac + LeBytes(c.le)
    modifies wrapped
    ensures status == if |Ciphertext(s, c.data)| > 240 then Overrun
                      else if wrapped.Length < |Ciphertext(s, c.data)| + 13 + |LeBytes(c.le)| then InsufficientBuffer
                      else Success
    ensures status == Success ==>
              length <= wrapped.Length
              && wrapped[..length] == EncryptedApdu(c, Ciphertext(s, c.data), mac)
  {
    hide MacInput, Header, Ciphertext, Encrypts, EncryptedApdu, Usable;
    var end := macLength - 8 - |LeBytes(c.le)|;
    BodyInPlace(c, mac, wrapped[..macLength], end);
    assert wrapped[5..end] == wrapped[..macLength][5..end];
    assert wrapped[..4] == wrapped[..macLength][..4];
    var lc: int := wrapped[4];
    wrapped[4] := (lc - 8) % 256;
    var encryption := BodyCiphertext(s, c.data, wrapped, end);
    assert wrapped[..4] == Header(c);
    if |encryption| > 240 {
      return Overrun, 0;
    }
    status, length := PlaceCiphertext(c, encryption, mac, wrapped);
  }

  /** SCP02 encrypts what stands behind the length byte, SCP01 the length byte as well. */
  method BodyCiphertext(s: Session, ghost data: Bytes, wrapped: array<Byte>, end: nat) returns (encryption: Bytes)
    requires 5 <= end <= wrapped.Length
    requires wrapped[5..end] == data && wrapped[4] == |data| % 256
    ensures encryption == Ciphertext(s, data)
  {
    hide TripleDes, Cbc, PadMethod2, PadIfNeeded;
    if s.protocol.Scp02? {
      encryption := CalculateEncCbcScp02(s.des, s.encryptionKey, wrapped[5..end]);
    } else {
      assert wrapped[4..end] == [|data| % 256] + data;
      encryption := CalculateEncCbc(s.des, s.encryptionKey, wrapped[4..end]);
    }
  }

  /** Ciphertext, length byte, C-MAC and Le go behind the header. */
  method PlaceCiphertext(c: Command, encryption: Bytes, mac: Bytes, wrapped: array<Byte>)
    returns (status: Status, length: nat)
    requires |mac| == 8 && |encryption| <= 240 && wrapped.Length >= 5 && wrapped[..4] == Header(c)
    modifies wrapped
    ensures status == if wrapped.Length < |encryption| + 13 + |LeBytes(c.le)| then InsufficientBuffer else Success
    ensures status == Success ==>
              length <= wrapped.Length && wrapped[..length] == EncryptedApdu(c, encryption, mac)
  {
    hide Header;
    length := |encryption| + 13;
    if wrapped.Length < length {
      return InsufficientBuffer, 0;
    }
    CopyInto(wrapped, 5, encryption);
    assert wrapped[..4] == wrapped[..5][..4];
    wrapped[4] := |encryption| + 8;
    assert wrapped[..|encryption| + 5] == wrapped[..4] + [wrapped[4]] + wrapped[5..|encryption| + 5];
    if wrapped.Length < length + |LeBytes(c.le)| {
      return InsufficientBuffer, 0;
    }
    length := PutTrailer(wrapped, length, mac, c.le);
    return Success, length;
  }

  function Header(c: Command): Bytes {
    [Secured(c.cla), c.ins, c.p1, c.p2]
  }

  function EncryptedApdu(c: Command, body: Bytes, mac: Bytes): Bytes {
    Header(c) + [(|body| + 8) % 256] + body + mac + LeBytes(c.le)
  }

  lemma BodyInPlace(c: Command, mac: Bytes, w: Bytes, end: nat)
    requires |mac| == 8 && w == MacInput(c) + mac + LeBytes(c.le)
    requires end == |w| - 8 - |LeBytes(c.le)|
    ensures 5 <= end && w[5..end] == c.data && w[..4] == Header(c) && w[4] == (|c.data| + 8) % 256
  {
  }
}
