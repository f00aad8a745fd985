/**
 `tunnel2` as the card runs it: the scratch arrays, the length variables, and the PUT_DATA
 and GET_DATA commands over the datastore.
 */
module TunnelCard {
  import opened Sequences
  import opened ByteStrings
  import opened BlockCiphers
  import opened Datastore
  import opened Tunnel

  const APDU_BUFFER: nat := 261

  /** How a command ends: with 9000, an ISOException, or another exception. */
  datatype Outcome = Normal | NothingLeft | BadMac | OtherException

  class Card {
    const keys: Keys
    const padded: array<Byte>
    const padded2: array<Byte>
    const store: Datastore
    var tab2: int  // tab[2], the length the methods hand on

    ghost predicate Valid()
      reads this, store
    {
      && padded.Length == SCRATCH && padded2.Length == SCRATCH && padded != padded2
      && store.Valid() && store.data != padded && store.data != padded2
      && Usable(keys)
    }

    constructor (keys: Keys)
      requires Usable(keys)
      ensures Valid() && fresh(padded) && fresh(padded2) && fresh(store) && fresh(store.data)
      ensures store.Contents() == [] && this.keys == keys
    {
      this.keys := keys;
      padded := new Byte[SCRATCH](_ => 0);
      padded2 := new Byte[SCRATCH](_ => 0);
      store := new Datastore();
      tab2 := 0;
    }

    /** A buffer that is none of the card's own arrays. */
    ghost predicate Foreign(buffer: array<Byte>)
      reads this
    {
      buffer != padded && buffer != padded2 && buffer != store.data && buffer.Length == APDU_BUFFER
    }

    /** `pad`, within the bounds of both arrays. */
    method Pad(sortie: array<Byte>, entree: array<Byte>, lg: nat) returns (n: nat)
      requires sortie != entree && lg / BLOCK * BLOCK + BLOCK <= sortie.Length <= entree.Length
      modifies sortie, entree
      ensures n == |Pkcs7(old(entree[..lg]))| && sortie[..n] == Pkcs7(old(entree[..lg]))
    {
      var fill: Byte := if lg % BLOCK == 0 then BLOCK else BLOCK - lg % BLOCK;
      CopyInto(entree, lg, seq(fill, _ => fill));
      n := lg + BLOCK - lg % BLOCK;
      CopyInto(sortie, 0, entree[..n]);
      assert entree[..n] == old(entree[..lg]) + seq(fill, _ => fill);
    }

    /** `encrypt_tunnel`, with the random bytes it drew. */
    method EncryptTunnel(buffer: array<Byte>, length: nat, iv: Bytes)
      requires Valid() && Foreign(buffer) && |iv| == 16
      requires length / BLOCK * BLOCK + BLOCK + 32 <= SCRATCH
      modifies this`tab2, padded, padded2, buffer
      ensures tab2 == |Pkcs7(old(buffer[..length]))|
      ensures buffer[..tab2 + 16] == Sealed(keys, iv, old(buffer[..length]))
    {
      ghost var m := buffer[..length];
      var n := Pad(padded, buffer, length);
      tab2 := n;
      CopyInto(buffer, 0, iv);
      var c := Cbc(keys.enc, BLOCK, iv, padded[..n]);
      AlignedBy16(Pkcs7(m));
      CbcRoundTrip(keys.enc, keys.dec, BLOCK, iv, Pkcs7(m));
      CopyInto(padded2, 0, c);
      CopyInto(buffer, 16, padded2[..n]);
    }

    /** The message behind its length block, in `padded2`. */
    method PutMacInput(x: Bytes)
      requires padded2.Length == SCRATCH && |x| + 16 <= SCRATCH
      modifies padded2
      ensures padded2[..|x| + 16] == LengthBlock(|x|) + x
    {
      CopyInto(padded2, 16, x);
      CopyInto(padded2, 0, Zeros(16));
      padded2[0] := |x| % 256;
      padded2[1] := |x| / 256 % 256;
      assert padded2[..16] == LengthBlock(|x|);
      assert padded2[16..|x| + 16] == x;
      assert padded2[..|x| + 16] == padded2[..16] + padded2[16..|x| + 16];
    }

    /** What both MAC methods do: the CBC encryption of that, into `padded`, ends with the MAC. */
    method MacOf(x: Bytes)
      requires Valid() && |x| % BLOCK == 0 && |x| + 16 <= SCRATCH
      modifies padded, padded2
      ensures padded[|x|..|x| + 16] == TunnelMac(keys, x)
    {
      hide Chain, Cbc, LengthBlock;
      PutMacInput(x);
      ghost var all := LengthBlock(|x|) + x;
      MacCiphertext(keys, all);
      var c := Cbc(keys.mac, BLOCK, Zeros(16), padded2[..|x| + 16]);
      CopyInto(padded, 0, c);
      assert padded[|x|..|x| + 16] == c[|x|..];
    }

    /** `compute_MAC`: appends the MAC to the IV and the ciphertext in the buffer. */
    method ComputeMac(buffer: array<Byte>)
      requires Valid() && Foreign(buffer)
      requires 0 <= tab2 && tab2 % BLOCK == 0 && tab2 + 32 <= SCRATCH
      modifies padded, padded2, buffer
      ensures buffer[..tab2 + 32] == old(buffer[..tab2 + 16]) + TunnelMac(keys, old(buffer[..tab2 + 16]))
    {
      hide TunnelMac, Usable;
      MacOf(buffer[..tab2 + 16]);
      CopyInto(buffer, tab2 + 16, padded[tab2 + 16..tab2 + 32]);
    }

    /** The GET_DATA command: the next chunk of the stored response, as a frame. */
    method GetDataCommand(buffer: array<Byte>, iv: Bytes) returns (outcome: Outcome, frame: Bytes)
      requires Valid() && Foreign(buffer) && |iv| == 16
      modifies this`tab2, padded, padded2, buffer, store
      ensures Valid()
      ensures var m := old(store.Contents());
              if m == [] then outcome == NothingLeft && frame == [] && store.Contents() == []
              else
                var chunk := m[..Min(CHUNK, |m|)];
                outcome == Normal && frame == Frame(keys, iv, chunk) && store.Contents() == m[|chunk|..]
    {
      var n := store.GetRemainingData(CHUNK);
      tab2 := n;
      if n == 0 {
        return NothingLeft, [];
      }
      store.GetData(buffer, n);
      EncryptTunnel(buffer, n, iv);
      ComputeMac(buffer);
      return Normal, buffer[..tab2 + 32];
    }

    /** `check_MAC`, for a frame behind an APDU header. */
    method CheckMac(buffer: array<Byte>) returns (outcome: Outcome)
      requires Valid() && Foreign(buffer)
      modifies this`tab2, padded, padded2
      ensures var n := Signed(buffer[OFFSET_LC]);
              var data := buffer[OFFSET_CDATA..];
              outcome == if n < 16 || n % BLOCK != 0 then OtherException
                         else if data[n - 16..n] != TunnelMac(keys, data[..n - 16]) then BadMac
                         else Normal
    {
      hide TunnelMac, Usable;
      var n := Signed(buffer[OFFSET_LC]);
      tab2 := n - 32;
      if tab2 + 16 < 0 || n % BLOCK != 0 {
        return OtherException;
      }
      ghost var data := buffer[OFFSET_CDATA..];
      MacOf(buffer[OFFSET_CDATA..OFFSET_CDATA + n - 16]);
      assert buffer[OFFSET_CDATA..OFFSET_CDATA + n - 16] == data[..n - 16];
      var same := SameBytes(buffer, OFFSET_CDATA + n - 16, padded, tab2 + 16);
      assert buffer[OFFSET_CDATA + n - 16..OFFSET_CDATA + n] == data[n - 16..n];
      return if same then Normal else BadMac;
    }

    /** Its loop over the 16 bytes of the MAC. */
    method SameBytes(a: array<Byte>, i: nat, b: array<Byte>, j: nat) returns (same: bool)
      requires i + 16 <= a.Length && j + 16 <= b.Length
      ensures same <==> a[i..i + 16] == b[j..j + 16]
    {
      for k := 0 to 16
        invariant a[i..i + k] == b[j..j + k]
      {
        if a[i + k] != b[j + k] {
          assert a[i..i + 16][k] == a[i + k] && b[j..j + 16][k] == b[j + k];
          return false;
        }
      }
      return true;
    }

    /** `decrypt_tunnel`: the decrypted blocks go to the start of the buffer, their length to tab2. */
    method DecryptTunnel(buffer: array<Byte>) returns (outcome: Outcome)
      requires Valid() && Foreign(buffer)
      requires 16 <= Signed(buffer[OFFSET_LC]) && Signed(buffer[OFFSET_LC]) % BLOCK == 0
      modifies this`tab2, padded, buffer
      ensures var n := Signed(old(buffer[OFFSET_LC]));
              var data := old(buffer[OFFSET_CDATA..]);
              if n < 48 then outcome == OtherException
              else
                var p := Decrypt(keys, data[..16], data[16..n - 16]);
                outcome == Normal && buffer[..n - 32] == p && tab2 == n - 32 - Signed(p[n - 33])
    {
      hide Decrypt, Usable;
      var n := Signed(buffer[OFFSET_LC]);
      tab2 := n - 32;
      if tab2 <= 0 {
        return OtherException;
      }
      ghost var all := buffer[..];
      assert buffer[OFFSET_CDATA..] == all[OFFSET_CDATA..];
      SliceOfDrop(all, OFFSET_CDATA, 0, 16);
      SliceOfDrop(all, OFFSET_CDATA, 16, n - 16);
      assert buffer[5..21] == all[5..21] && buffer[21..21 + tab2] == all[21..21 + tab2];
      CopyInto(padded, 0, Decrypt(keys, buffer[5..21], buffer[21..21 + tab2]));
      CopyInto(buffer, 0, padded[..tab2]);
      tab2 := tab2 - Signed(padded[tab2 - 1]);
      return Normal;
    }

    /** The PUT_DATA command: a frame is checked, decrypted and stored. */
    method PutDataCommand(buffer: array<Byte>) returns (outcome: Outcome)
      requires Valid() && Foreign(buffer)
      modifies this`tab2, padded, padded2, buffer, store, store.data
      ensures Valid()
      ensures match Receive(keys, old(buffer[OFFSET_LC]), old(buffer[OFFSET_CDATA..]))
              case WrongMac => outcome == BadMac && store.Contents() == old(store.Contents())
              case IllegalLength => outcome == OtherException && store.Contents() == old(store.Contents())
              case Opened(p, length) =>
                && (outcome == Normal <==> 0 <= length <= buffer.Length && old(store.end) + length <= 512)
                && (outcome == Normal ==>
                      |p| <= buffer.Length && buffer[..|p|] == p
                      && store.Contents() == old(store.Contents()) + buffer[..length])
                && (outcome != Normal ==> outcome == OtherException && store.Contents() == old(store.Contents()))
    {
      hide TunnelMac, Decrypt, Inverse;
      outcome := CheckMac(buffer);
      if outcome != Normal {
        return;
      }
      outcome := DecryptTunnel(buffer);
      if outcome != Normal {
        return;
      }
      var ok := store.PutData(buffer, tab2, 0);
      return if ok then Normal else OtherException;
    }

    /**
     Storing a message of at most 79 bytes: any frame of it behind a header with its length in
     Lc is accepted, and the message is queued, while the datastore has room.
     */
    method StoreFrame(buffer: array<Byte>, iv: Bytes, m: Bytes) returns (outcome: Outcome)
      requires Valid() && Foreign(buffer)
      requires |iv| == 16 && |m| <= 79
      requires buffer[OFFSET_LC] == |Frame(keys, iv, m)| && Frame(keys, iv, m) <= buffer[OFFSET_CDATA..]
      modifies this`tab2, padded, padded2, buffer, store, store.data
      ensures Valid()
      ensures outcome == if old(store.end) + |m| <= 512 then Normal else OtherException
      ensures store.Contents() == if outcome == Normal then old(store.Contents()) + m else old(store.Contents())
    {
      ghost var f := Frame(keys, iv, m);
      hide Frame, Receive, Usable;
      ghost var data := buffer[OFFSET_CDATA..];
      assert data == f + data[|f|..];
      ReceiveInvertsFrame(keys, iv, m, data[|f|..]);
      outcome := PutDataCommand(buffer);
    }
  }

  // ---------- draining a response ----------

  /** Random bytes drawn for an IV. */
  type Iv = b: Bytes | |b| == 16 witness [0, 0, 0, 0, 0, 0, 0, 0, 0, 0, 0, 0, 0, 0, 0, 0]

  /** What the client collects: the messages of the frames, one behind the other. */
  ghost predicate Collects(k: Keys, frames: seq<Bytes>, m: Bytes)
    requires Usable(k)
  {
    if frames == [] then m == []
    else
      exists n: nat :: n <= |m| && OpensTo(Open(k, frames[0]), m[..n]) && Collects(k, frames[1..], m[n..])
  }

  /** How many frames a response of n bytes takes. */
  function FramesFor(n: nat): nat {
    (n + 207) / 208
  }

  /** The frames of a response, under the given IVs. */
  function Frames(k: Keys, ivs: nat -> Iv, m: Bytes, i: nat): seq<Bytes>
    decreases |m|
  {
    if m == [] then []
    else [Frame(k, ivs(i), m[..Min(CHUNK, |m|)])] + Frames(k, ivs, m[Min(CHUNK, |m|)..], i + 1)
  }

  /**
   Repeated GET_DATA drains a response of n bytes in exactly ceil(n / 208) frames, and the
   messages in them, opened by the client, are the response in order.
   */
  lemma {:induction false} FramesCollect(k: Keys, ivs: nat -> Iv, m: Bytes, i: nat)
    requires Usable(k)
    ensures |Frames(k, ivs, m, i)| == FramesFor(|m|)
    ensures Collects(k, Frames(k, ivs, m, i), m)
    decreases |m|
  {
    hide Frame, Open, Usable, OpensTo;
    if m != [] {
      var n := Min(CHUNK, |m|);
      FramesCollect(k, ivs, m[n..], i + 1);
      OpenInvertsFrame(k, ivs(i), m[..n]);
      assert Frames(k, ivs, m, i)[1..] == Frames(k, ivs, m[n..], i + 1);
    }
  }

  /** A client that sends GET_DATA until nothing is left; this is its i-th command and the later ones. */
  method Drain(card: Card, buffer: array<Byte>, ivs: nat -> Iv, i: nat) returns (frames: seq<Bytes>)
    requires card.Valid() && card.Foreign(buffer)
    modifies card`tab2, card.padded, card.padded2, buffer, card.store
    ensures card.Valid() && card.store.Contents() == []
    ensures frames == Frames(card.keys, ivs, old(card.store.Contents()), i)
    decreases |card.store.Contents()|
  {
    hide Frame, Usable, Frames;
    ghost var m := card.store.Contents();
    var outcome, frame := card.GetDataCommand(buffer, ivs(i));
    FramesStep(card.keys, ivs, m, i);
    if outcome != Normal {
      return [];
    }
    ghost var n := Min(CHUNK, |m|);
    assert frame == Frame(card.keys, ivs(i), m[..n]);
    ghost var left := m[n..];
    assert card.store.Contents() == left;
    hide Min;
    var more := Drain(card, buffer, ivs, i + 1);
    assert more == Frames(card.keys, ivs, left, i + 1);
    frames := [frame] + more;
  }

  /** A response that an applet left at the start of the datastore's array, stored and drained. */
  method ServeResponse(card: Card, buffer: array<Byte>, length: nat, ivs: nat -> Iv)
    returns (ok: bool, frames: seq<Bytes>)
    requires card.Valid() && card.Foreign(buffer)
    modifies card`tab2, card.padded, card.padded2, buffer, card.store, card.store.data
    ensures card.Valid() && card.store.Contents() == []
    ensures ok <==> length <= 512
    ensures ok ==> |frames| == FramesFor(length) && Collects(card.keys, frames, old(card.store.data[..])[..length])
  {
    hide Usable, Frames, Collects;
    frames := [];
    ghost var m := card.store.data[..];
    ok := card.store.Respond(card.store.data, length);
    if ok {
      frames := Drain(card, buffer, ivs, 0);
      FramesCollect(card.keys, ivs, m[..length], 0);
    }
  }

  lemma FramesStep(k: Keys, ivs: nat -> Iv, m: Bytes, i: nat)
    ensures Frames(k, ivs, m, i)
         == if m == [] then []
            else [Frame(k, ivs(i), m[..Min(CHUNK, |m|)])] + Frames(k, ivs, m[Min(CHUNK, |m|)..], i + 1)
  {
  }

  function Min(a: nat, b: nat): nat {
    if a < b then a else b
  }

  /** CBC-MAC: the MAC is the last block of the encryption. */
  lemma MacCiphertext(k: Keys, all: Bytes)
    requires Usable(k) && |all| % BLOCK == 0 && all != []
    ensures var c := Cbc(k.mac, BLOCK, Zeros(16), all);
            |c| == |all| && c[|all| - 16..] == Chain(k.mac, BLOCK, Zeros(16), all)
  {
    AlignedBy16(all);
    ChainIsLastBlock(k.mac, BLOCK, Zeros(16), all);
  }
}
