/**
 The card's datastore: a 512-byte array with a write and a read pointer.
 */
module Datastore {
  import opened ByteStrings

  const CAPACITY: nat := 512

  class Datastore {
    const data: array<Byte>
    var end: int      // tab[1]: behind the last byte put
    var current: int  // tab[2]: the next byte to get

    ghost predicate Valid()
      reads this
    {
      data.Length == CAPACITY && 0 <= current <= end <= CAPACITY
    }

    /** The bytes put and not yet got. */
    ghost function Contents(): Bytes
      requires Valid()
      reads this, data
    {
      data[current..end]
    }

    constructor ()
      ensures Valid() && Contents() == [] && end == 0 && fresh(data)
    {
      data := new Byte[CAPACITY](_ => 0);
      end, current := 0, 0;
    }

    /**
     `putData`: appends, or throws without effect where `arrayCopy` would leave an array. The
     input may be the datastore's own array: `arrayCopy` then copies as if from a snapshot.
     */
    method PutData(input: array<Byte>, length: int, off: nat) returns (ok: bool)
      requires Valid()
      modifies this, data
      ensures Valid()
      ensures ok <==> 0 <= length && off + length <= input.Length && old(end) + length <= 512
      ensures ok ==> Contents() == old(Contents()) + old(input[off..])[..length] && end == old(end) + length
      ensures ok ==> data[..old(end)] == old(data[..end])
      ensures !ok ==> unchanged(this) && unchanged(data)
    {
      if length < 0 || off + length > input.Length || end + length > data.Length {
        return false;
      }
      var piece := input[off..off + length];
      ghost var before := data[..end];
      CopyInto(data, end, piece);
      assert data[current..end + length] == data[..end + length][current..];
      end := end + length;
      assert (before + piece)[current..] == before[current..] + piece;
      return true;
    }

    /** `getData`: the next bytes, not more than are left, even into the datastore's own array. */
    method GetData(output: array<Byte>, length: nat)
      requires Valid() && length <= |Contents()| && length <= output.Length
      modifies this`current, output
      ensures Valid() && end == old(end)
      ensures output[..length] == old(Contents())[..length] && Contents() == old(Contents())[length..]
    {
      ghost var before, was := data[..], Contents();
      var piece := data[current..current + length];
      assert was[..length] == piece;
      CopyInto(output, 0, piece);
      assert output[..length] == piece;
      assert forall k :: length <= k < data.Length ==> data[k] == data[length..][k - length] == before[k];
      current := current + length;
      assert data[current..end] == was[length..];
    }

    /** `getRemainingData`. */
    method GetRemainingData(maximum: nat) returns (n: nat)
      requires Valid()
      ensures n == if maximum < |Contents()| then maximum else |Contents()|
    {
      n := if maximum < end - current then maximum else end - current;
    }

    /** `eraseData`. */
    method EraseData()
      requires Valid()
      modifies this
      ensures Valid() && Contents() == [] && end == 0
    {
      end := 0;
      current := 0;
    }

    /**
     How an applet stores its response: it has put it at the start of the array it was given,
     which is the datastore's own, and then erases and puts. Only the response is queued.
     */
    method Respond(input: array<Byte>, length: int) returns (ok: bool)
      requires Valid()
      modifies this, data
      ensures Valid()
      ensures ok <==> 0 <= length <= input.Length && length <= 512
      ensures Contents() == if ok then old(input[..])[..length] else []
    {
      EraseData();
      ok := PutData(input, length, 0);
    }
  }
}
