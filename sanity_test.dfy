/**
 * The program's two tests, `test_sanity` and `test_helloworld`, as clients
 * of the handler's contract: each builds a zero-filled 8-byte account owned
 * by the program, sends instructions, and reads the record back.
 */
module HelloWorldTest {
  import opened Wrappers
  import opened Borsh
  import opened Greeting
  import opened HelloWorld

  /**
   * What both tests do per greeting: call `process_instruction` with the
   * account alone, which succeeds, and decode the account data again. The
   * record read back holds the little-endian instruction data and its parity.
   */
  method GreetAndRead(programId: Pubkey, account: Account, instructionData: seq<u8>)
    returns (r: Result<(), ProgramError>, g: GreetingAccount)
    requires account.owner == programId && account.data.Length == RecordSize
    requires |instructionData| == U32Size
    modifies account.data
    ensures r == Success(())
    ensures var v := LittleEndian(instructionData[0], instructionData[1], instructionData[2], instructionData[3]);
      g == GreetingAccount(v, v % 2)
    ensures account.data[..] == EncodeRecord(g)
  {
    ghost var before := [AccountState(account.owner, account.data[..])];
    SnapshotOfOne(account);
    ProcessSucceedsIff(programId, before, instructionData);
    assert Process(programId, before, instructionData).Success?;
    r := ProcessInstruction(programId, [account], instructionData);
    assert r.Success?;
    assert r.value == ();
    ghost var v := LittleEndian(instructionData[0], instructionData[1], instructionData[2], instructionData[3]);
    RecordRoundTrip(GreetingAccount(v, v % 2));
    g := RecordFromSlice(account.data[..]).Extract();
  }

  /**
   * `test_sanity`: an account owned by the default address, greeted twice
   * with `[1, 2, 3, 4]`; both calls succeed, the record is read after each,
   * and the initial bytes, copied before the first call, are decoded too.
   */
  method TestSanity()
    returns (first: Result<(), ProgramError>, second: Result<(), ProgramError>,
             before: GreetingAccount, afterFirst: GreetingAccount, afterSecond: GreetingAccount)
    ensures first == Success(()) && second == Success(())
    ensures before == GreetingAccount(0, 0)
    ensures afterFirst == GreetingAccount(1 + 2 * 256 + 3 * 256 * 256 + 4 * 256 * 256 * 256, 1)
    ensures afterSecond == afterFirst
  {
    var programId := DefaultPubkey();
    var account := new Account(DefaultPubkey(), DefaultPubkey(), [0, 0, 0, 0, 0, 0, 0, 0]);
    var initial := account.data[..];
    first, afterFirst := GreetAndRead(programId, account, [1, 2, 3, 4]);
    second, afterSecond := GreetAndRead(programId, account, [1, 2, 3, 4]);
    assert afterFirst == afterSecond == GreetingAccount(1 + 2 * 256 + 3 * 256 * 256 + 4 * 256 * 256 * 256, 1);
    ZeroDataDecodes();
    before := RecordFromSlice(initial).Extract();
  }

  /**
   * `test_helloworld`: an account at `greetedKey` owned by `programId`,
   * greeted with `[1, 2, 3, 4]` and then with `[4, 3, 2, 1]`; both calls
   * succeed, and only the counter is read back, and that of the initial bytes, copied before the
   * first call. The two addresses are fresh in the test, so they are
   * parameters here.
   */
  method TestHelloworld(programId: Pubkey, greetedKey: Pubkey)
    returns (first: Result<(), ProgramError>, second: Result<(), ProgramError>,
             initial: u32, afterFirst: u32, afterSecond: u32)
    ensures first == Success(()) && second == Success(())
    ensures initial == 0
    ensures afterFirst == 1 + 2 * 256 + 3 * 256 * 256 + 4 * 256 * 256 * 256
    ensures afterSecond == 4 + 3 * 256 + 2 * 256 * 256 + 1 * 256 * 256 * 256
  {
    var account := new Account(greetedKey, programId, [0, 0, 0, 0, 0, 0, 0, 0]);
    var data := account.data[..];
    var g;
    first, g := GreetAndRead(programId, account, [1, 2, 3, 4]);
    afterFirst := g.counter;
    second, g := GreetAndRead(programId, account, [4, 3, 2, 1]);
    afterSecond := g.counter;
    ZeroDataDecodes();
    initial := RecordFromSlice(data).Extract().counter;
  }
}
