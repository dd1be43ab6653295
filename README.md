# Hello-world Solana program, modelled in Dafny

This project models the on-chain "hello world" program: its instruction
handler `process_instruction` and the `GreetingAccount` record it keeps in an
account.

The handler runs these steps in order:

1. It takes the first account passed to it. With no accounts it fails with
   `NotEnoughAccountKeys`.
2. It rejects the account with `IncorrectProgramId` unless the account is
   owned by the program.
3. It decodes the account data as a Borsh `GreetingAccount`. A record is two
   `u32` fields, `counter` then `check`, each four bytes little-endian.
4. It decodes the instruction data as a Borsh `u32`.
5. It replaces `counter` with that value. The old value is not incremented.
6. It sets `check` to `counter % 2`.
7. It writes the record back over the account data, in place.

Borsh's `try_from_slice` rejects input that is too short and input with bytes
left over. So the account data must be exactly 8 bytes and the instruction
data exactly 4 bytes. Every failure returns before the write, so a failed
call leaves the account data as it was.

Files:

- `wrappers.dfy`: the `Result` type used for every fallible step.
- `borsh.dfy`: module `Borsh`. The byte and `u32` types, the little-endian
  `u32` reader and writer, `u32::try_from_slice`, and the round-trip lemmas.
- `greeting.dfy`: module `Greeting`. The `GreetingAccount` record, its 8-byte
  encoding and decoding, and the lemmas about them.
- `processor.dfy`: module `HelloWorld`. Addresses, the `Account` class (its
  data is an `array` the handler overwrites), the `ProgramError` type, the
  function `Process` that specifies the handler, the method
  `ProcessInstruction`, and the lemmas about `Process`.
- `sanity_test.dfy`: module `HelloWorldTest`. The program's two tests,
  written as client methods whose postconditions are the values the tests
  assert.

`ProcessInstruction` is proved against `Process`. On success, the first
account's data equals what `Process` computes. On failure it returns the same
error, and the data is unchanged. The data of every other account is
unchanged either way. The lemmas then state what `Process` does: when it
succeeds, which error it returns otherwise, the parity invariant, overwrite
rather than increment, and idempotence. `ProcessAll` chains calls on one
account, as the tests do, and two lemmas by induction extend the success
condition and the overwrite property to any number of calls.

Three details of the code worth noting:

- The account data must be exactly 8 bytes, not just at least 8.
- The ownership error is `IncorrectProgramId`.
- An empty account list fails with `NotEnoughAccountKeys` before anything is
  decoded.

## Model

| member | source | states |
|---|---|---|
| `Borsh.LittleEndian` | src/program-rust/src/lib.rs:45 | The four bytes of a `u32` are read least significant first: the value modulo 256 is the first byte, and the value divided by 256³ is the last byte. |
| `Borsh.ReadU32` | src/program-rust/src/lib.rs:45 | Reading a `u32` from the front of a slice succeeds exactly when at least 4 bytes remain. Otherwise it fails with `UnexpectedLength`. On success it leaves everything after the first 4 bytes unread. |
| `Borsh.U32FromSlice` | src/program-rust/src/lib.rs:45 | `u32::try_from_slice` succeeds exactly on 4-byte input. Shorter input fails with `UnexpectedLength`, longer input with `NotAllBytesRead`. |
| `Borsh.EncodeU32` | src/program-rust/src/lib.rs:47 | A serialized `u32` is always exactly 4 bytes. |
| `Borsh.DecodeEncodeU32` | src/program-rust/src/lib.rs:45-47 | Reading back the four little-endian bytes written for `v` gives `v`. |
| `Borsh.EncodeDecodeU32` | src/program-rust/src/lib.rs:45 | Writing the little-endian value of any four bytes gives back those same bytes, so every 4-byte input is a valid `u32`. |
| `Borsh.U32RoundTrip` | src/program-rust/src/lib.rs:45-47 | `try_from_slice` of a serialized `u32` returns that value. |
| `Borsh.U32FromSliceInverse` | src/program-rust/src/lib.rs:45 | A slice that decodes as a `u32` is exactly the serialization of the decoded value. |
| `Greeting.EncodeRecord` | src/program-rust/src/lib.rs:12-17 | A serialized `GreetingAccount` is always exactly 8 bytes. |
| `Greeting.ReadRecord` | src/program-rust/src/lib.rs:43 | Reading a record (`counter`, then `check`) succeeds exactly when at least 8 bytes are available. Otherwise it fails with `UnexpectedLength`. The unread rest is everything after byte 8. |
| `Greeting.RecordFromSlice` | src/program-rust/src/lib.rs:43 | Decoding the account data succeeds exactly when it is 8 bytes long. Shorter data fails with `UnexpectedLength`, longer data with `NotAllBytesRead`. |
| `Greeting.RecordRoundTrip` | src/program-rust/src/lib.rs:43-47 | Decoding an encoded record gives back the record. |
| `Greeting.RecordFromSliceInverse` | src/program-rust/src/lib.rs:43 | Data that decodes is exactly the encoding of the record it decodes to. |
| `Greeting.RecordLayout` | src/program-rust/src/lib.rs:12-17 | In 8 bytes of data, `counter` is the little-endian value of bytes 0-3 and `check` that of bytes 4-7. |
| `Greeting.ZeroDataDecodes` | src/program-rust/src/lib.rs:65-83 | Eight zero bytes decode to `{counter: 0, check: 0}`. |
| `HelloWorld.Account.constructor` | src/program-rust/src/lib.rs:67-76 | A new account has the given address and owner, and a freshly allocated data buffer holding the given bytes. |
| `HelloWorld.DefaultPubkey` | src/program-rust/src/lib.rs:62-66 | `Pubkey::default()` is the 32-byte address whose bytes are all zero. |
| `HelloWorld.SetCounter` | src/program-rust/src/lib.rs:45-46 | The updated record holds the new counter value, and its `check` is `counter % 2`, so it is 0 or 1. |
| `HelloWorld.Process` | src/program-rust/src/lib.rs:23-52 | The handler as a function of the program address, the owners and data of the accounts, and the instruction data. A successful call has a first account, and the bytes it writes are exactly as long as that account's data, so the record overwrites the whole buffer. |
| `HelloWorld.ProcessInstruction` | src/program-rust/src/lib.rs:23-52 | The method succeeds exactly when `Process` does, and otherwise returns the same error. On success the first account's data is what `Process` computes. On failure that data is unchanged. The data of every other account is unchanged. |
| `HelloWorld.ProcessSucceedsIff` | src/program-rust/src/lib.rs:31-47 | A call succeeds if and only if there is a first account, the program owns it, its data is 8 bytes and the instruction data is 4 bytes. The new data is then `EncodeRecord(v, v % 2)`, where `v` is the little-endian value of the instruction data. |
| `HelloWorld.ProcessErrors` | src/program-rust/src/lib.rs:34-45 | Gives the error for each way a call can fail, with the checks in source order: no account, then wrong owner, then bad account data (short or too long), then bad instruction data (short or too long). |
| `HelloWorld.ProcessKeepsParity` | src/program-rust/src/lib.rs:46-47 | After a successful call, the stored data decodes to a record with `check == counter % 2`, so `check` is 0 or 1. |
| `HelloWorld.ProcessOverwrites` | src/program-rust/src/lib.rs:43-47 | The new data depends only on the instruction data. It does not depend on the valid record stored before or on the other accounts. |
| `HelloWorld.ProcessIdempotent` | src/program-rust/src/lib.rs:85-99 | Repeating a successful call on the data it wrote writes the same data again. |
| `HelloWorld.ProcessAll` | src/program-rust/src/lib.rs:85-99 | Successive calls on one account, each seeing the data the previous call wrote, stopping at the first failure. After a successful run the data has the same length as before. |
| `HelloWorld.ProcessAllSucceedsIff` | src/program-rust/src/lib.rs:85-99 | A run of one or more instructions on one account, where each call sees the data the previous call wrote, succeeds if and only if the program owns the account, its data is 8 bytes and every instruction is 4 bytes. |
| `HelloWorld.LastGreetingWins` | src/program-rust/tests/lib.rs:47-94 | After any successful run of instructions, the account holds `EncodeRecord(v, v % 2)`, where `v` is the little-endian value of the last instruction. The earlier instructions leave no trace. |
| `HelloWorld.GreetWithOneTwoThreeFour` | src/program-rust/src/lib.rs:77-91 | On any 8-byte record, `[1, 2, 3, 4]` stores counter 1 + 2·256 + 3·256² + 4·256³, which is odd, so `check` is 1. |
| `HelloWorld.GreetWithFourThreeTwoOne` | src/program-rust/tests/lib.rs:71-94 | On any 8-byte record, `[4, 3, 2, 1]` stores counter 4 + 3·256 + 2·256² + 1·256³, which is even, so `check` is 0. |
| `HelloWorldTest.GreetAndRead` | src/program-rust/src/lib.rs:85-86 | For a program-owned 8-byte account and 4 bytes of instruction data, the handler returns `Ok(())`, and `try_from_slice` then reads back `(v, v % 2)`. Here `v` is the little-endian value of the instruction data. |
| `HelloWorldTest.TestSanity` | src/program-rust/src/lib.rs:60-100 | Both calls to the handler return `Ok(())`. The zeroed account reads `{0, 0}`. After one greeting with `[1, 2, 3, 4]` it reads `{67305985, 1}`, and after a second identical greeting it reads the same. |
| `HelloWorldTest.TestHelloworld` | src/program-rust/tests/lib.rs:12-95 | Both calls to the handler succeed. The counter reads 0 at first, 1 + 2·256 + 3·256² + 4·256³ after `[1, 2, 3, 4]`, and 4 + 3·256 + 2·256² + 1·256³ after `[4, 3, 2, 1]`. |

## Left out

- `msg!` logging (src/program-rust/src/lib.rs:28, 38, 44, 49). It only writes to the log and does not change any result.
- The `entrypoint!` registration (src/program-rust/src/lib.rs:20). It connects the handler to the host runtime and has no logic of its own.
- `AccountInfo` internals: the `RefCell` borrows, lamports, the signer, writable and executable flags, and the rent epoch. The handler never reads them. An account is modelled as an address, an owner and a data array.
- `Pubkey` internals. An address is an opaque 32-byte sequence compared by equality.
- The conversion of Borsh's `io::Error` into `ProgramError`. In the source both decode failures reach the caller as `ProgramError::BorshIoError` with a message. The model tags which buffer failed (`AccountDataError` or `InstructionDataError`) and keeps the Borsh reason (`UnexpectedLength` or `NotAllBytesRead`).
- The failure of `serialize` on a buffer shorter than the record (`WriteZero`). It cannot happen here, because decoding has already required the data to be exactly 8 bytes.
- The general Borsh and bincode machinery. Only the fixed 4-byte `u32` layout and the 8-byte record layout are modelled.
- The transaction plumbing in src/program-rust/tests/lib.rs: `ProgramTest`, `BanksClient`, signing and blockhashes. Its assertions appear in `HelloWorldTest.TestHelloworld`, which takes the two fresh addresses as parameters.
