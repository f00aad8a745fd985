/**
 Block ciphers as uninterpreted functions with an inverse law, and cipher block chaining.
 */
module BlockCiphers {
  import opened Sequences
  import opened ByteStrings

  /** A block transformation under a fixed key. */
  type Permutation = Bytes -> Bytes

  /** g undoes f on blocks of n bytes. */
  ghost predicate Inverse(f: Permutation, g: Permutation, n: nat) {
    forall x: Bytes :: |x| == n ==> |f(x)| == n && g(f(x)) == x
  }

  predicate Aligned(m: Bytes, n: nat)
    requires n > 0
  {
    m == [] || (|m| >= n && Aligned(m[n..], n))
  }

  /** CBC encryption of the whole blocks of m, from the chaining value iv. */
  function Cbc(f: Permutation, n: nat, iv: Bytes, m: Bytes): Bytes
    requires n > 0
    decreases |m|
  {
    if |m| < n then []
    else
      var c := f(XorBlock(m[..n], iv));
      c + Cbc(f, n, c, m[n..])
  }

  /** The chaining value behind those blocks: the last ciphertext block. */
  function Chain(f: Permutation, n: nat, iv: Bytes, m: Bytes): Bytes
    requires n > 0
    decreases |m|
  {
    if |m| < n then iv else Chain(f, n, f(XorBlock(m[..n], iv)), m[n..])
  }

  function CbcDecrypt(g: Permutation, n: nat, iv: Bytes, c: Bytes): Bytes
    requires n > 0
    decreases |c|
  {
    if |c| < n then [] else XorBlock(g(c[..n]), iv) + CbcDecrypt(g, n, c[..n], c[n..])
  }

  lemma {:induction false} CbcDecryptLength(g: Permutation, n: nat, iv: Bytes, c: Bytes)
    requires n > 0 && Aligned(c, n) && forall x: Bytes :: |x| == n ==> |g(x)| == n
    ensures |CbcDecrypt(g, n, iv, c)| == |c|
    decreases |c|
  {
    if c != [] {
      CbcDecryptLength(g, n, c[..n], c[n..]);
    }
  }

  /** Decryption of the first block. */
  lemma CbcDecryptStep(g: Permutation, n: nat, iv: Bytes, c: Bytes, more: Bytes)
    requires n > 0 && |c| == n
    ensures CbcDecrypt(g, n, iv, c + more) == XorBlock(g(c), iv) + CbcDecrypt(g, n, c, more)
  {
    assert (c + more)[..n] == c && (c + more)[n..] == more;
  }

  lemma InverseAt(f: Permutation, g: Permutation, n: nat, x: Bytes)
    requires Inverse(f, g, n) && |x| == n
    ensures |f(x)| == n && g(f(x)) == x
  {
  }

  lemma {:induction false} CbcRoundTrip(f: Permutation, g: Permutation, n: nat, iv: Bytes, m: Bytes)
    requires n > 0 && Inverse(f, g, n) && Aligned(m, n)
    ensures |Cbc(f, n, iv, m)| == |m|
    ensures CbcDecrypt(g, n, iv, Cbc(f, n, iv, m)) == m
    decreases |m|
  {
    hide Inverse, CbcDecrypt, XorBlock;
    if m == [] {
      EmptyDecrypt(g, n, iv);
    } else {
      var c := f(XorBlock(m[..n], iv));
      InverseAt(f, g, n, XorBlock(m[..n], iv));
      CbcRoundTrip(f, g, n, c, m[n..]);
      XorBlockTwice(m[..n], iv);
      CbcDecryptStep(g, n, iv, c, Cbc(f, n, c, m[n..]));
      hide Aligned;
      assert m[..n] + m[n..] == m;
    }
  }

  lemma EmptyDecrypt(g: Permutation, n: nat, iv: Bytes)
    requires n > 0
    ensures CbcDecrypt(g, n, iv, []) == []
  {
  }

  /** The chaining value is the last ciphertext block. */
  lemma {:induction false} ChainIsLastBlock(f: Permutation, n: nat, iv: Bytes, m: Bytes)
    requires n > 0 && Aligned(m, n) && m != []
    requires forall x: Bytes :: |x| == n ==> |f(x)| == n
    ensures |Cbc(f, n, iv, m)| == |m| >= n
    ensures Chain(f, n, iv, m) == Cbc(f, n, iv, m)[|m| - n..]
    decreases |m|
  {
    var c := f(XorBlock(m[..n], iv));
    if m[n..] == [] {
      assert Cbc(f, n, c, m[n..]) == [];
      assert c + [] == c;
    } else {
      ChainIsLastBlock(f, n, c, m[n..]);
    }
  }

  lemma {:induction false} ChainLength(f: Permutation, n: nat, iv: Bytes, m: Bytes)
    requires n > 0 && Aligned(m, n) && m != []
    requires forall x: Bytes :: |x| == n ==> |f(x)| == n
    ensures |Chain(f, n, iv, m)| == n
    decreases |m|
  {
    var c := f(XorBlock(m[..n], iv));
    if m[n..] != [] {
      ChainLength(f, n, c, m[n..]);
    } else {
      assert Chain(f, n, c, m[n..]) == c;
    }
  }

  lemma {:induction false} CbcAppends(f: Permutation, n: nat, iv: Bytes, a: Bytes, b: Bytes)
    requires n > 0 && Aligned(a, n)
    ensures Cbc(f, n, iv, a + b) == Cbc(f, n, iv, a) + Cbc(f, n, Chain(f, n, iv, a), b)
    ensures Chain(f, n, iv, a + b) == Chain(f, n, Chain(f, n, iv, a), b)
    decreases |a|
  {
    if a == [] {
      assert a + b == b;
    } else {
      var c := f(XorBlock(a[..n], iv));
      assert (a + b)[..n] == a[..n] && (a + b)[n..] == a[n..] + b;
      CbcAppends(f, n, c, a[n..], b);
      Assoc(c, Cbc(f, n, c, a[n..]), Cbc(f, n, Chain(f, n, c, a[n..]), b));
    }
  }

  /** The chaining value matters: from different ones no message comes to the same end. */
  lemma {:induction false} ChainInjective(f: Permutation, g: Permutation, n: nat, h: Bytes, h': Bytes, m: Bytes)
    requires n > 0 && Inverse(f, g, n) && Aligned(m, n) && |h| == |h'| == n
    requires Chain(f, n, h, m) == Chain(f, n, h', m)
    ensures h == h'
    decreases |m|
  {
    if m != [] {
      var x, x' := XorBlock(m[..n], h), XorBlock(m[..n], h');
      InverseAt(f, g, n, x);
      InverseAt(f, g, n, x');
      ChainInjective(f, g, n, f(x), f(x'), m[n..]);
      XorBlockInjective(m[..n], h, h');
    }
  }

  /** One more block is enciphered with the ciphertext block before it, the first one with the IV. */
  lemma CbcNextBlock(f: Permutation, n: nat, iv: Bytes, a: Bytes, b: Bytes)
    requires n > 0 && Aligned(a, n) && |b| == n && (forall x: Bytes :: |x| == n ==> |f(x)| == n)
    ensures var c := Cbc(f, n, iv, a);
            && |c| == |a| && (a != [] ==> |a| >= n)
            && Cbc(f, n, iv, a + b) == c + f(XorBlock(b, if a == [] then iv else c[|a| - n..]))
  {
    var h := Chain(f, n, iv, a);
    CbcAppends(f, n, iv, a, b);
    var x := f(XorBlock(b, h));
    assert b[..n] == b && b[n..] == [] && x + [] == x;
    assert Cbc(f, n, h, b) == x + Cbc(f, n, x, []);
    if a != [] {
      ChainIsLastBlock(f, n, iv, a);
    }
  }

  lemma {:induction false} AlignedBy8(m: Bytes)
    requires |m| % 8 == 0
    ensures Aligned(m, 8)
    decreases |m|
  {
    if m != [] {
      AlignedBy8(m[8..]);
    }
  }

  lemma {:induction false} AlignedBy16(m: Bytes)
    requires |m| % 16 == 0
    ensures Aligned(m, 16)
    decreases |m|
  {
    if m != [] {
      AlignedBy16(m[16..]);
    }
  }

  // ---------- DES and two-key triple DES ----------

  /** The DES, under a key of 8 bytes. */
  datatype Des = Des(enc: (Bytes, Bytes) -> Bytes, dec: (Bytes, Bytes) -> Bytes)

  /** For each key, encryption and decryption undo each other on blocks of 8 bytes. */
  ghost predicate IsDes(des: Des) {
    && (forall k: Bytes, x: Bytes :: |x| == 8 ==> |des.enc(k, x)| == 8 && des.dec(k, des.enc(k, x)) == x)
    && (forall k: Bytes, x: Bytes :: |x| == 8 ==> |des.dec(k, x)| == 8 && des.enc(k, des.dec(k, x)) == x)
  }

  function SingleDes(des: Des, key: Bytes): Permutation {
    x => des.enc(key, x)
  }

  function LeftHalf(key: Bytes): Bytes {
    if |key| < 8 then key else key[..8]
  }

  function RightHalf(key: Bytes): Bytes {
    if |key| < 8 then [] else key[8..]
  }

  /** `EVP_des_ede` with a key of 16 bytes: encrypt, decrypt with the other half, encrypt. */
  function TripleDes(des: Des, key: Bytes): Permutation {
    x => des.enc(LeftHalf(key), des.dec(RightHalf(key), des.enc(LeftHalf(key), x)))
  }

  function TripleDesInverse(des: Des, key: Bytes): Permutation {
    x => des.dec(LeftHalf(key), des.enc(RightHalf(key), des.dec(LeftHalf(key), x)))
  }

  /** Encryption and decryption in turn, with the two halves of a key of 16 bytes. */
  lemma TripleDesIs(des: Des, key: Bytes, x: Bytes)
    requires |key| == 16
    ensures TripleDes(des, key)(x) == des.enc(key[..8], des.dec(key[8..], des.enc(key[..8], x)))
    ensures SingleDes(des, LeftHalf(key))(x) == des.enc(key[..8], x)
  {
    assert LeftHalf(key) == key[..8] && RightHalf(key) == key[8..];
  }

  lemma TripleDesIsInvertible(des: Des, key: Bytes)
    requires IsDes(des)
    ensures Inverse(TripleDes(des, key), TripleDesInverse(des, key), 8)
  {
    hide LeftHalf, RightHalf;
    forall x: Bytes | |x| == 8
      ensures |TripleDes(des, key)(x)| == 8 && TripleDesInverse(des, key)(TripleDes(des, key)(x)) == x
    {
      EdeUndone(des, LeftHalf(key), RightHalf(key), x);
    }
  }

  lemma EdeUndone(des: Des, left: Bytes, right: Bytes, x: Bytes)
    requires IsDes(des) && |x| == 8
    ensures var y := des.enc(left, des.dec(right, des.enc(left, x)));
            |y| == 8 && des.dec(left, des.enc(right, des.dec(left, y))) == x
  {
    var a := des.enc(left, x);
    var b := des.dec(right, a);
    assert |a| == 8 && des.dec(left, a) == x;
    assert |b| == 8 && des.enc(right, b) == a;
    assert des.dec(left, des.enc(left, b)) == b;
  }
}
