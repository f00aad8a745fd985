/**
 `GP211_store_data` and `load_from_buffer`: data cut into numbered blocks that fit a wrapped
 command.
 */
module ChunkedTransfer {
  import opened Options
  import opened Sequences
  import opened ByteStrings
  import opened SecureMessaging
  import opened CommandWrapper

  const MAX_APDU_DATA: nat := 239
  const STORE_DATA: Byte := 0xE2
  const LOAD: Byte := 0xE8

  /** The data fields of a run of commands, one behind the other. */
  function Payload(cs: seq<Command>): Bytes {
    if cs == [] then [] else cs[0].data + Payload(cs[1..])
  }

  /** How the blocks of one transfer are marked and numbered. */
  predicate Numbered(cs: seq<Command>, ins: Byte) {
    forall i :: 0 <= i < |cs| ==>
      && cs[i].cla == 0x80 && cs[i].ins == ins
      && cs[i].p1 == (if i == |cs| - 1 then 0x80 else 0x00)
      && cs[i].p2 == i % 256
      && 0 < |cs[i].data| <= MAX_APDU_DATA
  }

  /**
   A transfer that was sent: a prefix of the commands, the whole of it unless the card refused
   the last one sent.
   */
  ghost predicate Sent(sent: seq<Bytes>, cs: seq<Command>, accepts: nat -> bool, ok: bool) {
    && |sent| <= |cs|
    && (forall i :: 0 <= i < |sent| ==> sent[i] == Encode(cs[i]))
    && (forall i :: 0 <= i < |sent| - 1 ==> accepts(i))
    && (ok ==> |sent| == |cs| && (forall i :: 0 <= i < |cs| ==> accepts(i)))
    && (!ok ==> sent != [] && !accepts(|sent| - 1))
  }

  // ---------- blocks of the same transfer ----------

  /** How many bytes go into the next block. */
  function BlockSize(left: nat): nat {
    if left <= MAX_APDU_DATA then left else MAX_APDU_DATA
  }

  function Block(ins: Byte, lastLe: Option<Byte>, data: Bytes, number: nat): Command {
    var last := |data| <= MAX_APDU_DATA;
    Command(0x80, ins, if last then 0x80 else 0x00, number % 256, data[..BlockSize(|data|)], if last then lastLe else None)
  }

  /** The remaining data in blocks, the first of them with the given number. */
  function Blocks(ins: Byte, lastLe: Option<Byte>, data: Bytes, number: nat): seq<Command>
    decreases |data|
  {
    if data == [] then []
    else [Block(ins, lastLe, data, number)] + Blocks(ins, lastLe, data[BlockSize(|data|)..], number + 1)
  }

  /** One block of a transfer, with its number, and whether it is the last. */
  predicate IsBlock(c: Command, ins: Byte, lastLe: Option<Byte>, number: nat, last: bool) {
    && c.cla == 0x80 && c.ins == ins
    && c.p1 == (if last then 0x80 else 0x00)
    && c.p2 == number % 256
    && c.le == (if last then lastLe else None)
    && 0 < |c.data| <= MAX_APDU_DATA
    && (!last ==> |c.data| == MAX_APDU_DATA)
  }

  lemma {:induction false} BlocksCarryTheData(ins: Byte, lastLe: Option<Byte>, data: Bytes, number: nat)
    ensures var cs := Blocks(ins, lastLe, data, number);
            && Payload(cs) == data
            && |cs| == (|data| + MAX_APDU_DATA - 1) / MAX_APDU_DATA
            && (forall i :: 0 <= i < |cs| ==> IsBlock(cs[i], ins, lastLe, number + i, i == |cs| - 1))
    decreases |data|
  {
    if data != [] {
      var k := BlockSize(|data|);
      BlocksCarryTheData(ins, lastLe, data[k..], number + 1);
      var cs := Blocks(ins, lastLe, data, number);
      var c := Block(ins, lastLe, data, number);
      assert IsBlock(c, ins, lastLe, number, k == |data|);
      assert data[k..] == [] <==> k == |data|;
      hide Block, IsBlock;
      assert cs[0] == c && cs[1..] == Blocks(ins, lastLe, data[k..], number + 1);
      assert data == data[..k] + data[k..];
      assert c.data == data[..k] by {
        BlockData(ins, lastLe, data, number);
      }
    }
  }

  lemma BlockData(ins: Byte, lastLe: Option<Byte>, data: Bytes, number: nat)
    ensures Block(ins, lastLe, data, number).data == data[..BlockSize(|data|)]
  {
  }

  lemma BlocksStep(ins: Byte, lastLe: Option<Byte>, data: Bytes, at: nat, number: nat)
    requires at < |data|
    ensures var k := BlockSize(|data| - at);
            && Blocks(ins, lastLe, data[at..], number)
               == [Block(ins, lastLe, data[at..], number)] + Blocks(ins, lastLe, data[at + k..], number + 1)
            && Block(ins, lastLe, data[at..], number).data == data[at..at + k]
  {
    var k := BlockSize(|data| - at);
    assert data[at..][k..] == data[at + k..] && data[at..][..k] == data[at..at + k];
  }

  // ---------- GP211_store_data ----------

  function StoreDataCommands(data: Bytes): seq<Command> {
    Blocks(STORE_DATA, None, data, 0)
  }

  /** The send buffer holds the encoding of a command with data. */
  lemma BufferHolds(b: Bytes, c: Command, n: nat)
    requires 0 < |c.data| <= MAX_APDU_DATA
    requires n == 5 + |c.data| + |LeBytes(c.le)| <= |b|
    requires b[0] == c.cla && b[1] == c.ins && b[2] == c.p1 && b[3] == c.p2 && b[4] == |c.data|
    requires b[5..5 + |c.data|] == c.data && b[5 + |c.data|..n] == LeBytes(c.le)
    ensures b[..n] == Encode(c)
  {
    assert b[..n] == [b[0], b[1], b[2], b[3], b[4]] + b[5..5 + |c.data|] + b[5 + |c.data|..n];
  }

  /** P1, the length byte and the data of one block go into the send buffer, and Le if there is one. */
  method PutBlock(sendBuffer: array<Byte>, p1: Byte, number: Byte, chunk: Bytes, le: Option<Byte>)
    returns (sendBufferLength: nat)
    requires sendBuffer.Length == 261 && 0 < |chunk| <= MAX_APDU_DATA
    modifies sendBuffer
    ensures sendBuffer[0] == old(sendBuffer[0]) && sendBuffer[1] == old(sendBuffer[1])
    ensures sendBufferLength <= 261
    ensures sendBuffer[..sendBufferLength]
         == Encode(Command(old(sendBuffer[0]), old(sendBuffer[1]), p1, number, chunk, le))
  {
    sendBuffer[2] := p1;
    CopyInto(sendBuffer, 5, chunk);
    sendBufferLength := 5 + |chunk|;
    sendBuffer[3] := number;
    sendBuffer[4] := |chunk|;
    assert sendBuffer[5..sendBufferLength] == chunk;
    if le.Some? {
      sendBufferLength := sendBufferLength + 1;
      sendBuffer[sendBufferLength - 1] := le.value;
      assert sendBuffer[5..5 + |chunk|] == chunk;
    }
    BufferHolds(sendBuffer[..], Command(sendBuffer[0], sendBuffer[1], p1, number, chunk, le), sendBufferLength);
    assert sendBuffer[..sendBufferLength] == sendBuffer[..][..sendBufferLength];
  }

  /** The body of both transfer loops: the next block of the data, as it leaves the send buffer. */
  method NextBlock(sendBuffer: array<Byte>, data: Bytes, total: nat, number: Byte, lastLe: Option<Byte>)
    returns (apdu: Bytes, count: nat)
    requires sendBuffer.Length == 261 && sendBuffer[0] == 0x80 && total < |data|
    modifies sendBuffer
    ensures sendBuffer[0] == 0x80 && sendBuffer[1] == old(sendBuffer[1])
    ensures apdu == Encode(Block(sendBuffer[1], lastLe, data[total..], number))
    ensures count == BlockSize(|data| - total)
  {
    hide Encode;
    var left := |data| - total;
    var sendBufferLength;
    BlocksStep(sendBuffer[1], lastLe, data, total, number);
    if left <= MAX_APDU_DATA {
      count := left;
      sendBufferLength := PutBlock(sendBuffer, 0x80, number, data[total..total + count], lastLe);
    } else {
      count := MAX_APDU_DATA;
      sendBufferLength := PutBlock(sendBuffer, 0x00, number, data[total..total + count], None);
    }
    apdu := sendBuffer[..sendBufferLength];
  }

  /** `GP211_store_data`. The card answers the i-th command with 9000 if accepts(i). */
  method StoreData(data: Bytes, accepts: nat -> bool) returns (ok: bool, sent: seq<Bytes>)
    ensures Sent(sent, StoreDataCommands(data), accepts, ok)
  {
    hide Encode, Block, BlockSize;
    var sendBuffer := new Byte[261](_ => 0);
    sendBuffer[0] := 0x80;
    sendBuffer[1] := STORE_DATA;
    assert data[0..] == data;
    sent, ok := SendBlocks(sendBuffer, data, 0, [], [], None, accepts);
  }

  /** The loop of both transfers, behind what was sent before. */
  method SendBlocks(
    sendBuffer: array<Byte>, data: Bytes, start: nat, before: seq<Bytes>, ghost commands: seq<Command>,
    lastLe: Option<Byte>, accepts: nat -> bool)
    returns (sent: seq<Bytes>, ok: bool)
    requires sendBuffer.Length == 261 && sendBuffer[0] == 0x80 && start <= |data|
    requires Sent(before, commands, accepts, true)
    modifies sendBuffer
    ensures Sent(sent, commands + Blocks(old(sendBuffer[1]), lastLe, data[start..], |before|), accepts, ok)
  {
    hide Encode, Block, Sent, Blocks;
    ghost var ins := sendBuffer[1];
    ghost var done, all := commands, commands + Blocks(ins, lastLe, data[start..], |before|);
    SentAll(before, commands, accepts);
    var blockNumber: Byte := |before| % 256;
    var total := start;
    sent := before;
    while total < |data|
      invariant start <= total <= |data|
      invariant sendBuffer[0] == 0x80 && sendBuffer[1] == ins && blockNumber == |sent| % 256
      invariant Sent(sent, done, accepts, true) && |sent| == |done|
      invariant all == done + Blocks(ins, lastLe, data[total..], |sent|)
    {
      ghost var c := Block(ins, lastLe, data[total..], |sent|);
      BlocksStep(ins, lastLe, data, total, |sent|);
      SameNumber(ins, lastLe, data[total..], |sent|);
      var apdu, count := NextBlock(sendBuffer, data, total, blockNumber, lastLe);
      total := total + count;
      var next: int := blockNumber;
      blockNumber := (next + 1) % 256;
      NextNumber(|sent|);
      ghost var rest := Blocks(ins, lastLe, data[total..], |sent| + 1);
      SentStep(sent, done, accepts, c, rest);
      Assoc(done, [c], rest);
      sent := sent + [apdu];
      if !accepts(|sent| - 1) {
        return sent, false;
      }
      done := done + [c];
    }
    NoBlocks(ins, lastLe, data[total..], |sent|);
    assert done + [] == done;
    return sent, true;
  }

  lemma NextNumber(n: nat)
    ensures (n % 256 + 1) % 256 == (n + 1) % 256
  {
  }

  lemma NoBlocks(ins: Byte, lastLe: Option<Byte>, data: Bytes, number: nat)
    requires data == []
    ensures Blocks(ins, lastLe, data, number) == []
  {
  }

  lemma SentAll(sent: seq<Bytes>, cs: seq<Command>, accepts: nat -> bool)
    requires Sent(sent, cs, accepts, true)
    ensures |sent| == |cs|
  {
  }

  /** One more command, which the card accepts or refuses. */
  lemma SentStep(sent: seq<Bytes>, cs: seq<Command>, accepts: nat -> bool, c: Command, rest: seq<Command>)
    requires Sent(sent, cs, accepts, true)
    ensures accepts(|sent|) ==> Sent(sent + [Encode(c)], cs + [c], accepts, true)
    ensures !accepts(|sent|) ==> Sent(sent + [Encode(c)], cs + [c] + rest, accepts, false)
  {
    hide Encode;
  }

  lemma SameNumber(ins: Byte, lastLe: Option<Byte>, data: Bytes, number: nat)
    ensures Block(ins, lastLe, data, number % 256) == Block(ins, lastLe, data, number)
  {
  }

  /** The blocks carry exactly the data, each small enough, numbered in turn, only the last one marked. */
  lemma StoreDataBlocks(data: Bytes)
    ensures Payload(StoreDataCommands(data)) == data
    ensures Numbered(StoreDataCommands(data), 0xE2)
  {
    BlocksCarryTheData(STORE_DATA, None, data, 0);
  }

  /** Every block passes `wrap_command` with encryption in the 261-byte buffer of the sender. */
  lemma StoreDataBlocksWrap(s: Session, last: Bytes, data: Bytes, i: nat)
    requires Usable(s) && Encrypts(s) && i < |StoreDataCommands(data)|
    ensures var c := StoreDataCommands(data)[i];
            && Refusal(s, Encode(c), 261) == Success && EncryptionStatus(s, c, 261) == Success
            && |Ciphertext(s, c.data)| <= 240 && |Wrapped(s, last, c)| <= 254
            && Unwrap(s, last, Wrapped(s, last, c)) == Some((c.(cla := 0x84), CMac(s, last, c)))
  {
    BlocksCarryTheData(STORE_DATA, None, data, 0);
    BlockWraps(s, last, StoreDataCommands(data)[i]);
  }

  lemma BlockWraps(s: Session, last: Bytes, c: Command)
    requires Usable(s) && Encrypts(s)
    requires c.cla == 0x80 && 0 < |c.data| <= MAX_APDU_DATA
    ensures Refusal(s, Encode(c), 261) == Success && EncryptionStatus(s, c, 261) == Success
    ensures |Ciphertext(s, c.data)| <= 240 && |Wrapped(s, last, c)| <= 254
    ensures Unwrap(s, last, Wrapped(s, last, c)) == Some((c.(cla := 0x84), CMac(s, last, c)))
  {
    hide Ciphertext, Decrypted, Unwrap, Decode;
    CiphertextDecrypts(s, c.data);
    PlaintextLength(s, c.data);
    DecodeInvertsEncode(c);
    MacLength(s, last, MacInput(c));
    UnwrapInvertsWrapped(s, last, c);
    hide Mac, Plaintext, MacInput;
    assert |Body(s, c.data)| <= 240;
  }

  // ---------- load_from_buffer, without DAP blocks ----------

  /** How many bytes the source counts for the length of the load file. */
  function FileSizeSize(n: nat): nat {
    if n < 128 then 1 else if n < 256 then 2 else 3
  }

  /**
   Tag and length of the load file data block as the source writes them. The cases of its
   switch have no break, so the shorter forms are followed by the longer ones.
   */
  function LoadFileHeader(n: nat): Bytes {
    [0xC4]
    + (if n < 128 then [n % 256] else [])
    + (if n < 256 then [0x81, n % 256] else [])
    + [0x82, n / 256 % 256, n % 256]
  }

  /** Tag and length in BER-TLV. */
  function BerHeader(n: nat): Bytes {
    [0xC4] + if n < 128 then [n] else if n < 256 then [0x81, n] else [0x82, n / 256 % 256, n % 256]
  }

  /** The source refuses what it does not expect to fit 256 blocks. */
  predicate TooBig(n: nat) {
    n >= 65536 || 256 * MAX_APDU_DATA - 1 - FileSizeSize(n) < n
  }

  function FirstCount(file: Bytes): nat {
    var room := MAX_APDU_DATA - |LoadFileHeader(|file|)|;
    if |file| > room then room else |file|
  }

  function FirstLoad(file: Bytes): Command {
    var all := FirstCount(file) == |file|;
    Command(0x80, LOAD, if all then 0x80 else 0x00, 0, LoadFileHeader(|file|) + file[..FirstCount(file)],
            if all then Some(0x00) else None)
  }

  function LoadCommands(file: Bytes): seq<Command> {
    [FirstLoad(file)] + Blocks(LOAD, Some(0x00), file[FirstCount(file)..], 1)
  }

  datatype LoadStatus = Loaded | ApplicationTooBig | Refused

  /** `load_from_buffer` with no DAP blocks, over the basic logical channel. */
  method LoadFromBuffer(file: Bytes, accepts: nat -> bool) returns (status: LoadStatus, sent: seq<Bytes>)
    ensures status == ApplicationTooBig <==> TooBig(|file|)
    ensures status == ApplicationTooBig ==> sent == []
    ensures status != ApplicationTooBig ==> Sent(sent, LoadCommands(file), accepts, status == Loaded)
  {
    hide Encode, Blocks, Block, Sent;
    var sendBuffer := new Byte[261](_ => 0);
    sendBuffer[0] := 0x80;
    sendBuffer[1] := LOAD;
    var n := |file|;
    if n >= 65536 || 256 * MAX_APDU_DATA - 1 - FileSizeSize(n) < n {
      return ApplicationTooBig, [];
    }
    var header: Bytes := [0xC4];
    if FileSizeSize(n) == 1 {
      header := header + [n % 256];
    }
    if FileSizeSize(n) <= 2 {
      header := header + [0x81, n % 256];
    }
    header := header + [0x82, n / 256 % 256, n % 256];
    assert header == LoadFileHeader(n);
    var count := if n > MAX_APDU_DATA - |header| then MAX_APDU_DATA - |header| else n;
    var last := count == n;
    var sendBufferLength := PutBlock(
      sendBuffer, if last then 0x80 else 0x00, 0, header + file[..count], if last then Some(0x00) else None);
    var apdu := sendBuffer[..sendBufferLength];
    ghost var c, rest := FirstLoad(file), Blocks(LOAD, Some(0x00), file[count..], 1);
    NothingSent(accepts);
    SentStep([], [], accepts, c, rest);
    assert [] + [apdu] == [apdu] && [] + [c] == [c];
    if !accepts(0) {
      return Refused, [apdu];
    }
    var ok;
    sent, ok := SendBlocks(sendBuffer, file, count, [apdu], [c], Some(0x00), accepts);
    status := if ok then Loaded else Refused;
  }

  lemma NothingSent(accepts: nat -> bool)
    ensures Sent([], [], accepts, true)
  {
  }

  /**
   The commands carry tag, length and file, each block small enough, the last one marked,
   and numbered without wrapping: a file that is not refused needs at most 256 blocks.
   */
  lemma LoadBlocks(file: Bytes)
    requires !TooBig(|file|)
    ensures var cs := LoadCommands(file);
            && Payload(cs) == LoadFileHeader(|file|) + file
            && Numbered(cs, 0xE8) && |cs| <= 256
            && (forall i :: 0 <= i < |cs| ==> cs[i].p2 == i)
  {
    hide Blocks, LoadFileHeader;
    var k := FirstCount(file);
    var header := LoadFileHeader(|file|);
    var cs := LoadCommands(file);
    HeaderLength(|file|);
    BlocksCarryTheData(LOAD, Some(0x00), file[k..], 1);
    assert cs[1..] == Blocks(LOAD, Some(0x00), file[k..], 1);
    Assoc(header, file[..k], file[k..]);
    assert file[..k] + file[k..] == file;
  }

  /** The LOAD commands pass it as well, with Le behind the last one. */
  lemma LoadBlocksWrap(s: Session, last: Bytes, file: Bytes, i: nat)
    requires Usable(s) && Encrypts(s) && !TooBig(|file|) && i < |LoadCommands(file)|
    ensures var c := LoadCommands(file)[i];
            && Refusal(s, Encode(c), 261) == Success && EncryptionStatus(s, c, 261) == Success
            && |Ciphertext(s, c.data)| <= 240 && |Wrapped(s, last, c)| <= 254
            && Unwrap(s, last, Wrapped(s, last, c)) == Some((c.(cla := 0x84), CMac(s, last, c)))
  {
    LoadBlocks(file);
    BlockWraps(s, last, LoadCommands(file)[i]);
  }

  lemma HeaderLength(n: nat)
    ensures 4 <= |LoadFileHeader(n)| <= 7 && (n >= 256 ==> |LoadFileHeader(n)| == 4)
  {
  }

  /** The header is correct BER-TLV exactly for files of 256 bytes and more. */
  lemma LoadFileHeaderIsBer(n: nat)
    requires !TooBig(n)
    ensures LoadFileHeader(n) == BerHeader(n) <==> n >= 256
    ensures n >= 256 ==> GetShort(LoadFileHeader(n), 2) == n
  {
    if n < 256 {
      assert |LoadFileHeader(n)| > |BerHeader(n)|;
    }
  }

  /** Below 256 bytes the longer length forms follow the right one. */
  lemma ShortFileHeader(n: nat)
    requires n < 256
    ensures LoadFileHeader(n)
            == if n < 128 then [0xC4, n, 0x81, n, 0x82, 0x00, n] else [0xC4, 0x81, n, 0x82, 0x00, n]
  {
  }

  /** 61180 bytes are the most the source accepts, and exactly what fills 256 blocks. */
  lemma LargestLoadFile(file: Bytes)
    requires |file| >= 256
    ensures TooBig(|file|) <==> |file| > 61180
    ensures !TooBig(|file|) ==>
              (|file| == 61180 <==> |LoadCommands(file)| == 256 && |LoadCommands(file)[255].data| == MAX_APDU_DATA)
  {
    if !TooBig(|file|) {
      var rest := file[FirstCount(file)..];
      LoadBlocks(file);
      BlocksCarryTheData(LOAD, Some(0x00), rest, 1);
      LastBlockLength(LOAD, Some(0x00), rest, 1);
    }
  }

  lemma {:induction false} LastBlockLength(ins: Byte, lastLe: Option<Byte>, data: Bytes, number: nat)
    requires data != []
    ensures var cs := Blocks(ins, lastLe, data, number);
            cs != [] && |cs[|cs| - 1].data| == |data| - (|cs| - 1) * MAX_APDU_DATA
    decreases |data|
  {
    var k := BlockSize(|data|);
    if k < |data| {
      LastBlockLength(ins, lastLe, data[k..], number + 1);
    } else {
      assert Blocks(ins, lastLe, data[k..], number + 1) == [];
    }
  }
}
