/**
 The card's tunnel: PKCS#7 padding, CBC and a length-prefixed CBC-MAC, over two scratch
 arrays of 256 bytes and lengths that Java reads as signed bytes.
 */
module Tunnel {
  import opened ByteStrings
  import opened BlockCiphers

  const BLOCK: nat := 16
  const OFFSET_LC: nat := 4
  const OFFSET_CDATA: nat := 5
  const SCRATCH: nat := 256
  const CHUNK: nat := 208

  /** The block transformations under the session key and under the MAC key. */
  datatype Keys = Keys(enc: Permutation, dec: Permutation, mac: Permutation)

  ghost predicate Usable(k: Keys) {
    && Inverse(k.enc, k.dec, BLOCK)
    && (forall x: Bytes :: |x| == BLOCK ==> |k.dec(x)| == BLOCK)
    && (forall x: Bytes :: |x| == BLOCK ==> |k.mac(x)| == BLOCK)
  }

  // ---------- frames ----------

  /** Section 6.3 of RFC 5652. */
  function Pkcs7(m: Bytes): (p: Bytes)
    ensures |p| % BLOCK == 0 && |p| == |m| / BLOCK * BLOCK + BLOCK
  {
    var n := BLOCK - |m| % BLOCK;
    m + seq(n, _ => n)
  }

  /** The block in front of the message under the MAC: its length, the lower byte first. */
  function LengthBlock(n: nat): (b: Bytes)
    ensures |b| == BLOCK
  {
    [n % 256, n / 256 % 256] + Zeros(14)
  }

  function TunnelMac(k: Keys, x: Bytes): Bytes {
    Chain(k.mac, BLOCK, Zeros(BLOCK), LengthBlock(|x|) + x)
  }

  /** IV and ciphertext. */
  function Sealed(k: Keys, iv: Bytes, m: Bytes): Bytes {
    iv + Cbc(k.enc, BLOCK, iv, Pkcs7(m))
  }

  /** IV, ciphertext and MAC. */
  function Frame(k: Keys, iv: Bytes, m: Bytes): Bytes {
    Sealed(k, iv, m) + TunnelMac(k, Sealed(k, iv, m))
  }

  // ---------- reading a frame ----------

  /** A Java byte as a number. */
  function Signed(b: Byte): int {
    var n: int := b;
    if n < 128 then n else n - 256
  }

  function Decrypt(k: Keys, iv: Bytes, c: Bytes): (p: Bytes)
    requires Usable(k) && |c| % BLOCK == 0
    ensures |p| == |c|
  {
    AlignedBy16(c);
    CbcDecryptLength(k.dec, BLOCK, iv, c);
    CbcDecrypt(k.dec, BLOCK, iv, c)
  }

  /** What comes of a received frame. */
  datatype Received =
    | Opened(blocks: Bytes, length: int)  // the decrypted blocks, and their length without padding
    | WrongMac                            // ISOException 0x66
    | IllegalLength                       // an exception of arrayCopy, doFinal or an array access

  /** The decrypted blocks, whose last byte says how long the padding is. */
  function Unpadded(p: Bytes): Received
    requires p != []
  {
    Opened(p, |p| - Signed(p[|p| - 1]))
  }

  /**
   What `check_MAC` and `decrypt_tunnel` make of the bytes behind an APDU header, when the
   length byte is read as a signed number.
   */
  function Receive(k: Keys, lc: Byte, data: Bytes): Received
    requires Usable(k) && |data| >= 128
  {
    hide TunnelMac, Decrypt, Usable;
    var n := Signed(lc);
    if n < 16 || n % BLOCK != 0 then IllegalLength
    else if data[n - 16..n] != TunnelMac(k, data[..n - 16]) then WrongMac
    else if n < 48 then IllegalLength
    else Unpadded(Decrypt(k, data[..16], data[16..n - 16]))
  }

  /** The same for a client that knows the length of the frame. */
  function Open(k: Keys, frame: Bytes): Received
    requires Usable(k)
  {
    hide TunnelMac, Decrypt, Usable;
    if |frame| < 48 || |frame| % BLOCK != 0 then IllegalLength
    else
      var n := |frame|;
      if frame[n - 16..] != TunnelMac(k, frame[..n - 16]) then WrongMac
      else Unpadded(Decrypt(k, frame[..16], frame[16..n - 16]))
  }

  /** A frame was opened to the message m. */
  predicate OpensTo(r: Received, m: Bytes) {
    r.Opened? && r.length == |m| <= |r.blocks| && r.blocks[..|m|] == m
  }

  lemma FrameParts(k: Keys, iv: Bytes, m: Bytes)
    requires Usable(k) && |iv| == BLOCK
    ensures var f, n := Frame(k, iv, m), |Pkcs7(m)|;
            && |f| == n + 32 && |TunnelMac(k, Sealed(k, iv, m))| == 16
            && f[..16] == iv && f[..n + 16] == Sealed(k, iv, m)
            && f[n + 16..] == TunnelMac(k, f[..n + 16])
            && Decrypt(k, iv, f[16..n + 16]) == Pkcs7(m)
  {
    hide Cbc, Decrypt, TunnelMac, Pkcs7, Usable;
    var p := Pkcs7(m);
    DecryptInvertsCbc(k, iv, p);
    TunnelMacLength(k, Sealed(k, iv, m));
    assert Frame(k, iv, m)[16..|p| + 16] == Cbc(k.enc, BLOCK, iv, p);
  }

  lemma DecryptInvertsCbc(k: Keys, iv: Bytes, p: Bytes)
    requires Usable(k) && |iv| == BLOCK && |p| % BLOCK == 0
    ensures |Cbc(k.enc, BLOCK, iv, p)| == |p| && Decrypt(k, iv, Cbc(k.enc, BLOCK, iv, p)) == p
  {
    hide Cbc, CbcDecrypt, Inverse;
    AlignedBy16(p);
    CbcRoundTrip(k.enc, k.dec, BLOCK, iv, p);
  }

  lemma TunnelMacLength(k: Keys, x: Bytes)
    requires Usable(k) && |x| % BLOCK == 0
    ensures |TunnelMac(k, x)| == 16
  {
    AlignedBy16(LengthBlock(|x|) + x);
    ChainLength(k.mac, BLOCK, Zeros(BLOCK), LengthBlock(|x|) + x);
  }

  /** One to sixteen bytes are added, each the number of them. */
  lemma Pkcs7Is(m: Bytes)
    ensures var p := Pkcs7(m);
            && |p| % 16 == 0 && |m| < |p| <= |m| + 16 && p[..|m|] == m
            && forall i :: |m| <= i < |p| ==> p[i] == |p| - |m|
  {
  }

  /** The MAC is the last CBC block, from a zero IV, of the length in two bytes, 14 zeros, and the message. */
  lemma TunnelMacIs(k: Keys, x: Bytes)
    requires Usable(k) && |x| % 16 == 0
    ensures var c := Cbc(k.mac, 16, seq(16, _ => 0), [|x| % 256, |x| / 256 % 256] + seq(14, _ => 0) + x);
            |c| == |x| + 16 && TunnelMac(k, x) == c[|x|..]
  {
    var all := LengthBlock(|x|) + x;
    assert LengthBlock(|x|) == [|x| % 256, |x| / 256 % 256] + seq(14, _ => 0);
    AlignedBy16(all);
    ChainIsLastBlock(k.mac, 16, Zeros(16), all);
    hide Cbc, Chain;
    assert seq(16, _ => 0) == Zeros(16);
  }

  /** A frame: the IV, the padded message enciphered from it, and the MAC over both. */
  lemma FrameIs(k: Keys, iv: Bytes, m: Bytes)
    requires Usable(k) && |iv| == 16
    ensures var x := iv + Cbc(k.enc, 16, iv, Pkcs7(m));
            var c := Cbc(k.mac, 16, seq(16, _ => 0), [|x| % 256, |x| / 256 % 256] + seq(14, _ => 0) + x);
            |c| == |x| + 16 && Frame(k, iv, m) == x + c[|x|..]
  {
    hide TunnelMac, Cbc, Usable, Pkcs7;
    DecryptInvertsCbc(k, iv, Pkcs7(m));
    TunnelMacIs(k, Sealed(k, iv, m));
  }

  lemma UnpadPkcs7(m: Bytes)
    ensures var p := Pkcs7(m); |m| < |p| && |p| - Signed(p[|p| - 1]) == |m| && p[..|m|] == m
  {
  }

  /** A client opens every frame to the message that was put into it. */
  lemma OpenInvertsFrame(k: Keys, iv: Bytes, m: Bytes)
    requires Usable(k) && |iv| == BLOCK
    ensures OpensTo(Open(k, Frame(k, iv, m)), m)
  {
    hide Frame, TunnelMac, Decrypt, Pkcs7, Sealed, Usable;
    FrameParts(k, iv, m);
    UnpadPkcs7(m);
    assert |Frame(k, iv, m)| % BLOCK == 0;
  }

  /**
   The card opens a frame behind an APDU header to its message exactly up to 79 bytes: the
   next longer frame has 128 bytes, and the length byte is signed. Frames of more than 255
   bytes have no length byte at all.
   */
  lemma ReceiveInvertsFrame(k: Keys, iv: Bytes, m: Bytes, rest: Bytes)
    requires Usable(k) && |iv| == BLOCK && |m| <= 207
    requires |Frame(k, iv, m) + rest| >= 128
    ensures |Frame(k, iv, m)| <= 255
    ensures OpensTo(Receive(k, |Frame(k, iv, m)|, Frame(k, iv, m) + rest), m) <==> |m| <= 79
  {
    FrameParts(k, iv, m);
    var f := Frame(k, iv, m);
    assert |f| == |m| / BLOCK * BLOCK + BLOCK + 32;
    if |m| <= 79 {
      OpenInvertsFrame(k, iv, m);
      ReceiveOpens(k, f, rest);
    } else {
      assert Signed(|f|) < 0;
    }
  }

  /** Up to 127 bytes the card makes of a frame what a client does. */
  lemma ReceiveOpens(k: Keys, f: Bytes, rest: Bytes)
    requires Usable(k) && 48 <= |f| < 128 && |f| % BLOCK == 0 && |f + rest| >= 128
    ensures Receive(k, |f|, f + rest) == Open(k, f)
  {
    hide TunnelMac, Decrypt, Usable;
    var n := |f|;
    assert (f + rest)[n - 16..n] == f[n - 16..] && (f + rest)[..n - 16] == f[..n - 16];
    assert (f + rest)[..16] == f[..16] && (f + rest)[16..n - 16] == f[16..n - 16];
  }

  /** A frame fits the scratch arrays exactly for messages up to 223 bytes; of whole blocks 208 is the longest. */
  lemma FrameFits(n: nat)
    ensures n / BLOCK * BLOCK + BLOCK + 32 <= SCRATCH <==> n <= 223
    ensures n % BLOCK == 0 ==> (n <= 223 <==> n <= 208)
    ensures CHUNK == 208
  {
  }
}
