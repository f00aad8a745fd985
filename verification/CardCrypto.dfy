/**
 The MAC and encryption functions of the card library: loops that feed a buffered cipher
 stream block by block, against the MAC algorithms of ISO/IEC 9797-1 and plain CBC.
 */
module CardCrypto {
  import opened Sequences
  import opened ByteStrings
  import opened BlockCiphers

  const ICV: Bytes := [0, 0, 0, 0, 0, 0, 0, 0]
  const PADDING: Bytes := [0x80, 0, 0, 0, 0, 0, 0, 0]

  function Ecb(f: Permutation, m: Bytes): Bytes {
    if |m| < 8 then [] else f(m[..8]) + Ecb(f, m[8..])
  }

  /** The ciphertext of the whole blocks of m, and the chaining value behind them. */
  function Output(chained: bool, f: Permutation, iv: Bytes, m: Bytes): Bytes {
    if chained then Cbc(f, 8, iv, m) else Ecb(f, m)
  }

  function Next(chained: bool, f: Permutation, iv: Bytes, m: Bytes): Bytes {
    if chained then Chain(f, 8, iv, m) else iv
  }

  /** Padding that is left out when the message already ends on a block boundary. */
  function PadIfNeeded(m: Bytes): (p: Bytes)
    ensures |p| % 8 == 0
  {
    if |m| % 8 == 0 then m else PadMethod2(m)
  }

  /** Clause 7.3 of ISO/IEC 9797-1, from the chaining value icv: CBC with K, then D with K', then E with K. */
  function MacAlgorithm3(des: Des, key: Bytes, icv: Bytes, m: Bytes): Bytes {
    var h := Chain(SingleDes(des, LeftHalf(key)), 8, icv, PadMethod2(m));
    des.enc(LeftHalf(key), des.dec(RightHalf(key), h))
  }

  /** MAC algorithm 1 with triple DES: the last block of full triple-DES CBC. */
  function MacTripleDes(des: Des, key: Bytes, icv: Bytes, m: Bytes): Bytes {
    Chain(TripleDes(des, key), 8, icv, PadMethod2(m))
  }

  /**
   `EVP_CIPHER_CTX` with padding switched off. The ghost fields say what was given and what has
   come out so far.
   */
  class EvpContext {
    const f: Permutation
    const chained: bool
    const iv: Bytes
    var chain: Bytes
    var buffered: Bytes
    ghost var given: Bytes
    ghost var released: Bytes

    /** Over the whole run the ciphertext of the whole blocks has come out, and the rest waits. */
    ghost predicate Valid()
      reads this
    {
      var n := |given| / 8 * 8;
      && buffered == given[n..]
      && released == Output(chained, f, iv, given[..n])
      && chain == Next(chained, f, iv, given[..n])
    }

    constructor (f: Permutation, chained: bool, iv: Bytes)
      ensures Valid() && given == [] && released == [] && chain == iv
      ensures this.f == f && this.chained == chained && this.iv == iv
    {
      NothingGiven(chained, f, iv);
      hide Output, Next;
      this.f := f;
      this.chained := chained;
      this.iv := iv;
      chain := iv;
      buffered := [];
      given := [];
      released := [];
    }

    /** The cipher, block by block: data is what of all has not been encrypted yet. */
    method EncryptBlocks(data: Bytes, ghost all: Bytes, ghost start: nat) returns (out: Bytes, rest: Bytes)
      requires 8 * start <= |all| && data == all[8 * start..]
      requires chain == Next(chained, f, iv, all[..8 * start])
      modifies this`chain
      ensures var n := |all| / 8 * 8;
              && rest == all[n..] && chain == Next(chained, f, iv, all[..n])
              && Output(chained, f, iv, all[..n]) == Output(chained, f, iv, all[..8 * start]) + out
    {
      hide Output, Chain, XorBlock;
      out := [];
      var at := 0;
      ghost var i := start;
      while at + 8 <= |data|
        invariant at <= |data| && at == 8 * i - 8 * start
        invariant chain == Next(chained, f, iv, all[..8 * i])
        invariant Output(chained, f, iv, all[..8 * i]) == Output(chained, f, iv, all[..8 * start]) + out
      {
        var block := data[at..at + 8];
        SliceOfDrop(all, 8 * start, at, at + 8);
        OutputStep(chained, f, iv, all, i);
        var c := f(if chained then XorBlock(block, chain) else block);
        Assoc(Output(chained, f, iv, all[..8 * start]), out, c);
        out := out + c;
        if chained {
          chain := c;
        }
        at := at + 8;
        i := i + 1;
      }
      rest := data[at..];
    }

    /**
     `EVP_EncryptUpdate`: however the input is cut into calls, what comes out is the encryption
     of all of it that makes whole blocks.
     */
    method Update(input: Bytes) returns (out: Bytes)
      requires Valid()
      modifies this
      ensures Valid() && given == old(given) + input && released == old(released) + out
    {
      hide Output, Next;
      ghost var all, start := given + input, |given| / 8;
      assert buffered + input == all[8 * start..] && all[..8 * start] == given[..8 * start];
      out, buffered := EncryptBlocks(buffered + input, all, start);
      given := all;
      released := released + out;
    }

    /** A whole block behind whole blocks: what comes out is also the next chaining value. */
    method UpdateBlock(block: Bytes) returns (out: Bytes)
      requires Valid() && |block| == 8 && |given| % 8 == 0
      modifies this
      ensures Valid() && given == old(given) + block && released == old(released) + out
      ensures chained ==> out == chain
    {
      ghost var was, n := released, |given| / 8;
      assert given[..8 * n] == given;
      out := Update(block);
      LastRelease(chained, f, iv, given, was, out);
    }

    /** A shorter piece stays in the buffer; the padding that completes it releases the block. */
    method UpdateLast(piece: Bytes) returns (out: Bytes)
      requires Valid() && |piece| < 8 && |given| % 8 == 0
      modifies this
      ensures Valid() && given == old(given) + (piece + PADDING[..8 - |piece|]) && released == old(released) + out
      ensures chained ==> out == chain
    {
      ghost var was, n := released, |given| / 8;
      assert given[..8 * n] == given;
      if |piece| != 0 {
        var nothing := Update(piece);
        assert given[..8 * n] == old(given);
        assert was + nothing == was + [];
        Cancel(was, nothing, []);
      }
      out := Update(PADDING[..8 - |piece|]);
      Assoc(old(given), piece, PADDING[..8 - |piece|]);
      assert old(given) + piece == old(given) || piece != [];
      assert given == old(given) + (piece + PADDING[..8 - |piece|]);
      assert given[..|given| - 8] == old(given);
      assert released == was + out;
      LastRelease(chained, f, iv, given, was, out);
    }
  }

  /** The release of one block behind whole blocks is the chaining value of all of them. */
  lemma LastRelease(chained: bool, f: Permutation, iv: Bytes, m: Bytes, was: Bytes, out: Bytes)
    requires |m| >= 8 && |m| % 8 == 0
    requires was == Output(chained, f, iv, m[..|m| - 8]) && was + out == Output(chained, f, iv, m[..|m|])
    ensures chained ==> out == Next(chained, f, iv, m[..|m|])
  {
    var n := |m| / 8 - 1;
    OutputStep(chained, f, iv, m, n);
    hide Output, Next;
    var c := f(if chained then XorBlock(m[8 * n..8 * n + 8], Next(chained, f, iv, m[..8 * n])) else m[8 * n..8 * n + 8]);
    Cancel(was, out, c);
  }

  lemma NothingGiven(chained: bool, f: Permutation, iv: Bytes)
    ensures Output(chained, f, iv, []) == [] && Next(chained, f, iv, []) == iv
  {
  }

  lemma OneBlock(f: Permutation, iv: Bytes, block: Bytes)
    requires |block| == 8
    ensures Cbc(f, 8, iv, block) == f(XorBlock(block, iv)) == Chain(f, 8, iv, block)
    ensures Ecb(f, block) == f(block)
  {
    var c := f(XorBlock(block, iv));
    assert block[..8] == block && block[8..] == [];
    assert c + [] == c && f(block) + [] == f(block);
    assert Chain(f, 8, c, []) == c;
  }

  lemma PaddedLastBlock(m: Bytes)
    ensures var n := |m| / 8 * 8;
            PadMethod2(m) == m[..n] + (m[n..] + PADDING[..8 - |m| % 8]) && |m[n..]| == |m| % 8
  {
    var n := |m| / 8 * 8;
    assert PADDING[..8 - |m| % 8] == [0x80] + Zeros(7 - |m| % 8);
    assert m == m[..n] + m[n..];
  }

  /** `calculate_MAC`. */
  method CalculateMac(des: Des, key: Bytes, message: Bytes, icv: Bytes) returns (mac: Bytes)
    ensures mac == MacTripleDes(des, key, icv, message)
  {
    hide Chain, XorBlock, TripleDes;
    var ctx := new EvpContext(TripleDes(des, key), true, icv);
    var n := |message| / 8;
    for i := 0 to n
      invariant ctx.Valid() && ctx.given == message[..8 * i]
    {
      mac := ctx.UpdateBlock(message[8 * i..8 * i + 8]);
    }
    mac := ctx.UpdateLast(message[8 * n..]);
    PaddedLastBlock(message);
    assert ctx.given[..|ctx.given|] == ctx.given;
  }

  lemma ChainStep(f: Permutation, iv: Bytes, m: Bytes, i: nat)
    requires 8 * i + 8 <= |m|
    ensures Chain(f, 8, iv, m[..8 * i + 8]) == f(XorBlock(m[8 * i..8 * i + 8], Chain(f, 8, iv, m[..8 * i])))
    ensures Cbc(f, 8, iv, m[..8 * i + 8])
         == Cbc(f, 8, iv, m[..8 * i]) + f(XorBlock(m[8 * i..8 * i + 8], Chain(f, 8, iv, m[..8 * i])))
  {
    var a, b := m[..8 * i], m[8 * i..8 * i + 8];
    assert m[..8 * i + 8] == a + b;
    AlignedBy8(a);
    CbcAppends(f, 8, iv, a, b);
    OneBlock(f, Chain(f, 8, iv, a), b);
  }

  lemma ChainEnds(f: Permutation, iv: Bytes, m: Bytes)
    ensures var n := |m| / 8 * 8;
            var c := f(XorBlock(m[n..] + PADDING[..8 - |m| % 8], Chain(f, 8, iv, m[..n])));
            Chain(f, 8, iv, PadMethod2(m)) == c && Cbc(f, 8, iv, PadMethod2(m)) == Cbc(f, 8, iv, m[..n]) + c
  {
    var n := |m| / 8 * 8;
    PaddedLastBlock(m);
    AlignedBy8(m[..n]);
    CbcAppends(f, 8, iv, m[..n], m[n..] + PADDING[..8 - |m| % 8]);
    OneBlock(f, Chain(f, 8, iv, m[..n]), m[n..] + PADDING[..8 - |m| % 8]);
  }

  /** `calculate_MAC_des_3des`: single DES over the whole blocks, triple DES over the padded rest. */
  method CalculateMacDes3Des(des: Des, key: Bytes, message: Bytes, initialIcv: Bytes) returns (mac: Bytes)
    ensures mac == MacAlgorithm3(des, key, initialIcv, message)
  {
    hide MacAlgorithm3, Chain, XorBlock, LeftHalf, SingleDes, TripleDes;
    mac := initialIcv;
    var ctx := new EvpContext(SingleDes(des, LeftHalf(key)), true, initialIcv);
    var n := |message| / 8;
    for i := 0 to n
      invariant ctx.Valid() && ctx.given == message[..8 * i] && mac == ctx.chain
    {
      mac := ctx.UpdateBlock(message[8 * i..8 * i + 8]);
    }
    assert ctx.given[..|ctx.given|] == ctx.given;
    mac := LastBlock(TripleDes(des, key), mac, message[8 * n..]);
    MacAlgorithm3IsOneTripleStep(des, key, initialIcv, message);
  }

  /** The padded last block in a stream of its own. */
  method LastBlock(f: Permutation, h: Bytes, piece: Bytes) returns (mac: Bytes)
    requires |piece| < 8
    ensures mac == f(XorBlock(piece + PADDING[..8 - |piece|], h))
  {
    hide Chain, XorBlock;
    ghost var last := piece + PADDING[..8 - |piece|];
    var ctx := new EvpContext(f, true, h);
    mac := ctx.UpdateLast(piece);
    assert [] + last == last && last[..8] == last;
    OneBlock(f, h, last);
  }

  /** What the encryption functions do: whole blocks, the rest, and the padding they want. */
  method EncryptPadded(ctx: EvpContext, message: Bytes, always: bool) returns (encryption: Bytes)
    requires ctx.Valid() && ctx.given == [] && ctx.released == []
    modifies ctx
    ensures var p := if always then PadMethod2(message) else PadIfNeeded(message);
            encryption == Output(ctx.chained, ctx.f, ctx.iv, p)
  {
    hide Chain, Output, Next, XorBlock, PadMethod2;
    var n := |message| / 8;
    encryption := [];
    for i := 0 to n
      invariant ctx.Valid() && ctx.given == message[..8 * i] && encryption == ctx.released
    {
      var out := ctx.UpdateBlock(message[8 * i..8 * i + 8]);
      encryption := encryption + out;
    }
    if always || |message| % 8 != 0 {
      var out := ctx.UpdateLast(message[8 * n..]);
      encryption := encryption + out;
      PaddedLastBlock(message);
    } else {
      assert message[..8 * n] == message;
    }
    assert ctx.given[..|ctx.given|] == ctx.given;
  }

  lemma OutputStep(chained: bool, f: Permutation, iv: Bytes, m: Bytes, i: nat)
    requires 8 * i + 8 <= |m|
    ensures var a, b := m[..8 * i], m[8 * i..8 * i + 8];
            var out := f(if chained then XorBlock(b, Next(chained, f, iv, a)) else b);
            && Output(chained, f, iv, m[..8 * i + 8]) == Output(chained, f, iv, a) + out
            && Next(chained, f, iv, m[..8 * i + 8]) == if chained then out else iv
  {
    ChainStep(f, iv, m, i);
    EcbAppends(f, m[..8 * i], m[8 * i..8 * i + 8]);
    assert m[..8 * i] + m[8 * i..8 * i + 8] == m[..8 * i + 8];
    OneBlock(f, iv, m[8 * i..8 * i + 8]);
  }

  lemma {:induction false} EcbAppends(f: Permutation, a: Bytes, b: Bytes)
    requires |a| % 8 == 0
    ensures Ecb(f, a + b) == Ecb(f, a) + Ecb(f, b)
  {
    if a == [] {
      assert a + b == b;
    } else {
      assert (a + b)[..8] == a[..8] && (a + b)[8..] == a[8..] + b;
      EcbAppends(f, a[8..], b);
    }
  }

  /** `calculate_enc_cbc_SCP02`. */
  method CalculateEncCbcScp02(des: Des, key: Bytes, message: Bytes) returns (encryption: Bytes)
    ensures encryption == Cbc(TripleDes(des, key), 8, [0, 0, 0, 0, 0, 0, 0, 0], PadMethod2(message))
  {
    var ctx := new EvpContext(TripleDes(des, key), true, ICV);
    encryption := EncryptPadded(ctx, message, true);
  }

  /** `calculate_enc_cbc`. */
  method CalculateEncCbc(des: Des, key: Bytes, message: Bytes) returns (encryption: Bytes)
    ensures encryption == Cbc(TripleDes(des, key), 8, [0, 0, 0, 0, 0, 0, 0, 0], PadIfNeeded(message))
  {
    var ctx := new EvpContext(TripleDes(des, key), true, ICV);
    encryption := EncryptPadded(ctx, message, false);
  }

  /** `calculate_enc_ecb_single_des`. */
  method CalculateEncEcbSingleDes(des: Des, key: Bytes, message: Bytes) returns (encryption: Bytes)
    ensures encryption == Ecb(SingleDes(des, LeftHalf(key)), PadIfNeeded(message))
  {
    var ctx := new EvpContext(SingleDes(des, LeftHalf(key)), false, []);
    encryption := EncryptPadded(ctx, message, false);
  }

  /** `calculate_enc_ecb_two_key_triple_des`. */
  method CalculateEncEcbTripleDes(des: Des, key: Bytes, message: Bytes) returns (encryption: Bytes)
    ensures encryption == Ecb(TripleDes(des, key), PadIfNeeded(message))
  {
    var ctx := new EvpContext(TripleDes(des, key), false, []);
    encryption := EncryptPadded(ctx, message, false);
  }

  /** The MAC of SCP02 is the last block of a CBC in which only the final block uses triple DES. */
  lemma MacAlgorithm3IsOneTripleStep(des: Des, key: Bytes, icv: Bytes, m: Bytes)
    ensures var n := |m| / 8 * 8;
            var h := Chain(SingleDes(des, LeftHalf(key)), 8, icv, m[..n]);
            var last := XorBlock(m[n..] + PADDING[..8 - |m| % 8], h);
            MacAlgorithm3(des, key, icv, m) == TripleDes(des, key)(last)
  {
    ChainEnds(SingleDes(des, LeftHalf(key)), icv, m);
  }

  /** `calculate_MAC` gives the last block of the CBC encryption of the padded message. */
  lemma MacTripleDesIsLastBlock(des: Des, key: Bytes, icv: Bytes, m: Bytes)
    requires IsDes(des)
    ensures var c := Cbc(TripleDes(des, key), 8, icv, PadMethod2(m));
            |c| >= 8 && MacTripleDes(des, key, icv, m) == c[|c| - 8..]
  {
    TripleDesIsInvertible(des, key);
    AlignedBy8(PadMethod2(m));
    ChainIsLastBlock(TripleDes(des, key), 8, icv, PadMethod2(m));
  }

  /** The steps of MAC Algorithm 3 with a key of 16 bytes: h are the chaining values. */
  lemma MacAlgorithm3Steps(des: Des, key: Bytes, icv: Bytes, m: Bytes) returns (h: seq<Bytes>)
    requires |key| == 16
    ensures var p := PadMethod2(m);
            && |h| == |p| / 8 + 1 && h[0] == icv
            && (forall i :: 0 <= i < |p| / 8 ==> h[i + 1] == des.enc(key[..8], XorBlock(p[8 * i..8 * i + 8], h[i])))
            && MacAlgorithm3(des, key, icv, m) == des.enc(key[..8], des.dec(key[8..], h[|p| / 8]))
  {
    var p, f := PadMethod2(m), SingleDes(des, LeftHalf(key));
    h := seq(|p| / 8 + 1, i requires 0 <= i <= |p| / 8 => Chain(f, 8, icv, p[..8 * i]));
    assert p[..0] == [] && p[..8 * (|p| / 8)] == p;
    forall i | 0 <= i < |p| / 8 ensures h[i + 1] == des.enc(key[..8], XorBlock(p[8 * i..8 * i + 8], h[i])) {
      ChainStep(f, icv, p, i);
    }
  }

  /** The steps of the MAC of SCP01: every block passes triple DES. */
  lemma MacTripleDesSteps(des: Des, key: Bytes, icv: Bytes, m: Bytes) returns (h: seq<Bytes>)
    requires |key| == 16
    ensures var p := PadMethod2(m);
            && |h| == |p| / 8 + 1 && h[0] == icv
            && (forall i :: 0 <= i < |p| / 8 ==>
                  var x := XorBlock(p[8 * i..8 * i + 8], h[i]);
                  h[i + 1] == des.enc(key[..8], des.dec(key[8..], des.enc(key[..8], x))))
            && MacTripleDes(des, key, icv, m) == h[|p| / 8]
  {
    var p, f := PadMethod2(m), TripleDes(des, key);
    h := seq(|p| / 8 + 1, i requires 0 <= i <= |p| / 8 => Chain(f, 8, icv, p[..8 * i]));
    assert p[..0] == [] && p[..8 * (|p| / 8)] == p;
    forall i | 0 <= i < |p| / 8
      ensures var x := XorBlock(p[8 * i..8 * i + 8], h[i]);
              h[i + 1] == des.enc(key[..8], des.dec(key[8..], des.enc(key[..8], x)))
    {
      ChainStep(f, icv, p, i);
      TripleDesIs(des, key, XorBlock(p[8 * i..8 * i + 8], h[i]));
    }
  }

  /** ECB: every block is enciphered alone. */
  lemma {:induction false} EcbBlock(f: Permutation, m: Bytes, i: nat)
    requires 8 * i + 8 <= |m| && (forall x: Bytes :: |x| == 8 ==> |f(x)| == 8)
    ensures 8 * i + 8 <= |Ecb(f, m)| && Ecb(f, m)[8 * i..8 * i + 8] == f(m[8 * i..8 * i + 8])
    decreases |m|
  {
    assert |f(m[..8])| == 8;
    assert Ecb(f, m)[8..] == Ecb(f, m[8..]);
    if i > 0 {
      EcbBlock(f, m[8..], i - 1);
      assert m[8..][8 * i - 8..8 * i] == m[8 * i..8 * i + 8];
      assert Ecb(f, m)[8..][8 * i - 8..8 * i] == Ecb(f, m)[8 * i..8 * i + 8];
    }
  }

  lemma MacLengths(des: Des, key: Bytes, icv: Bytes, m: Bytes)
    requires IsDes(des)
    ensures |MacAlgorithm3(des, key, icv, m)| == 8 && |MacTripleDes(des, key, icv, m)| == 8
  {
    hide IsDes, Chain, PadMethod2, SingleDes, TripleDes, LeftHalf, RightHalf;
    var p := PadMethod2(m);
    AlignedBy8(p);
    DesKeepsLength(des, key);
    ChainLength(SingleDes(des, LeftHalf(key)), 8, icv, p);
    ChainLength(TripleDes(des, key), 8, icv, p);
  }

  lemma DesKeepsLength(des: Des, key: Bytes)
    requires IsDes(des)
    ensures forall x: Bytes :: |x| == 8 ==> |SingleDes(des, LeftHalf(key))(x)| == 8
    ensures forall x: Bytes :: |x| == 8 ==> |TripleDes(des, key)(x)| == 8
    ensures forall x: Bytes :: |x| == 8 ==> |des.enc(LeftHalf(key), des.dec(RightHalf(key), x))| == 8
  {
    hide IsDes, LeftHalf, RightHalf;
    forall x: Bytes | |x| == 8
      ensures |SingleDes(des, LeftHalf(key))(x)| == 8 && |TripleDes(des, key)(x)| == 8
      ensures |des.enc(LeftHalf(key), des.dec(RightHalf(key), x))| == 8
    {
      DesLengths(des, LeftHalf(key), RightHalf(key), x);
    }
  }

  lemma DesLengths(des: Des, left: Bytes, right: Bytes, x: Bytes)
    requires IsDes(des) && |x| == 8
    ensures |des.enc(left, x)| == 8 && |des.enc(left, des.dec(right, x))| == 8
    ensures |des.enc(left, des.dec(right, des.enc(left, x)))| == 8
  {
    assert |des.enc(left, x)| == 8 && |des.dec(right, x)| == 8;
    assert |des.dec(right, des.enc(left, x))| == 8;
  }
}
