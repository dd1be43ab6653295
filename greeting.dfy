/**
 * The state the hello-world program keeps in an account: a `GreetingAccount`
 * record of two `u32` fields, stored with Borsh as `counter` (bytes 0-3) then
 * `check` (bytes 4-7), both little-endian, 8 bytes in all.
 */
module Greeting {
  import opened Wrappers
  import opened Borsh

  datatype GreetingAccount = GreetingAccount(counter: u32, check: u32)

  /** Size in bytes of a serialized `GreetingAccount`. */
  const RecordSize: nat := 8

  /** `GreetingAccount::serialize`: the fields in declaration order. */
  function EncodeRecord(g: GreetingAccount): (s: seq<u8>)
    ensures |s| == RecordSize
  {
    EncodeU32(g.counter) + EncodeU32(g.check)
  }

  /** `GreetingAccount::deserialize` on a slice: read `counter`, then `check`, and return the rest. */
  function ReadRecord(s: seq<u8>): (r: Result<(GreetingAccount, seq<u8>), BorshError>)
    ensures r.Success? <==> |s| >= RecordSize
    ensures r.Failure? ==> r.error == UnexpectedLength
    ensures r.Success? ==> r.value.1 == s[RecordSize..]
  {
    var (counter, rest) :- ReadU32(s);
    var (check, rest') :- ReadU32(rest);
    Success((GreetingAccount(counter, check), rest'))
  }

  /**
   * `GreetingAccount::try_from_slice`: the record must occupy the whole
   * slice, so decoding succeeds exactly on 8-byte slices; a shorter one runs
   * out, a longer one has bytes left over.
   */
  function RecordFromSlice(s: seq<u8>): (r: Result<GreetingAccount, BorshError>)
    ensures r.Success? <==> |s| == RecordSize
    ensures r.Failure? ==> r.error == (if |s| < RecordSize then UnexpectedLength else NotAllBytesRead)
  {
    var (g, rest) :- ReadRecord(s);
    if rest != [] then Failure(NotAllBytesRead) else Success(g)
  }

  /** Round trip: decoding an encoded record gives back the record. */
  lemma {:induction false} RecordRoundTrip(g: GreetingAccount)
    ensures RecordFromSlice(EncodeRecord(g)) == Success(g)
  {
    var s := EncodeRecord(g);
    DecodeEncodeU32(g.counter);
    DecodeEncodeU32(g.check);
    assert s[4..] == EncodeU32(g.check);
  }

  /** The other direction: a slice that decodes is exactly the encoding of the record it decodes to. */
  lemma RecordFromSliceInverse(s: seq<u8>)
    requires RecordFromSlice(s).Success?
    ensures EncodeRecord(RecordFromSlice(s).value) == s
  {
    EncodeDecodeU32(s[..4]);
    EncodeDecodeU32(s[4..]);
    assert s == s[..4] + s[4..];
  }

  /** The field layout: `counter` little-endian in bytes 0-3, `check` in bytes 4-7. */
  lemma RecordLayout(s: seq<u8>)
    requires |s| == RecordSize
    ensures RecordFromSlice(s)
         == Success(GreetingAccount(LittleEndian(s[0], s[1], s[2], s[3]), LittleEndian(s[4], s[5], s[6], s[7])))
  {
  }

  /** A freshly allocated, zero-filled 8-byte account decodes to a record of zeros. */
  lemma ZeroDataDecodes()
    ensures RecordFromSlice([0, 0, 0, 0, 0, 0, 0, 0]) == Success(GreetingAccount(0, 0))
  {
    RecordLayout([0, 0, 0, 0, 0, 0, 0, 0]);
  }
}
