/**
 * The instruction handler of the hello-world program. The first account of
 * the instruction must be owned by the program; its data must hold a
 * `GreetingAccount`; the instruction data must be a Borsh `u32`. That value
 * replaces `counter`, `check` becomes its parity, and the record is written
 * back over the account's data.
 */
module HelloWorld {
  import opened Wrappers
  import opened Borsh
  import opened Greeting

  /** Length in bytes of an account address. */
  const PubkeyLength: nat := 32

  /** An account or program address, compared only by equality. */
  type Pubkey = s: seq<u8> | |s| == PubkeyLength witness ZeroBytes(PubkeyLength)

  /** `n` zero bytes. */
  function ZeroBytes(n: nat): (s: seq<u8>)
    ensures |s| == n
    ensures forall i :: 0 <= i < n ==> s[i] == 0
  {
    if n == 0 then [] else ZeroBytes(n - 1) + [0]
  }

  /** The all-zero address, `Pubkey::default()`. */
  function DefaultPubkey(): (k: Pubkey)
    ensures forall i :: 0 <= i < |k| ==> k[i] == 0
  {
    ZeroBytes(PubkeyLength)
  }

  /** The errors the handler returns. */
  datatype ProgramError =
    | NotEnoughAccountKeys                  // the instruction names no account
    | IncorrectProgramId                    // the account is not owned by this program
    | AccountDataError(cause: BorshError)   // the account data is not a `GreetingAccount`
    | InstructionDataError(cause: BorshError) // the instruction data is not a `u32`

  /** An account passed to the program: its address, its owner and its mutable data. */
  class Account {
    const key: Pubkey
    const owner: Pubkey
    const data: array<u8>

    constructor (key: Pubkey, owner: Pubkey, initial: seq<u8>)
      ensures this.key == key && this.owner == owner
      ensures fresh(data) && data[..] == initial
    {
      this.key := key;
      this.owner := owner;
      data := new u8[|initial|](i requires 0 <= i < |initial| => initial[i]);
    }
  }

  /** What the handler can observe of an account: its owner and its data. */
  datatype AccountState = AccountState(owner: Pubkey, data: seq<u8>)

  /** The owners and current data of `accounts`, in order. */
  ghost function Snapshot(accounts: seq<Account>): (v: seq<AccountState>)
    reads set a | a in accounts :: a.data
    ensures |v| == |accounts|
  {
    seq(|accounts|, i requires 0 <= i < |accounts| reads set a | a in accounts :: a.data =>
      AccountState(accounts[i].owner, accounts[i].data[..]))
  }

  /** The two field updates after decoding: overwrite `counter` with `value`, set `check` to its parity. */
  function SetCounter(g: GreetingAccount, value: u32): (g': GreetingAccount)
    ensures g'.counter == value
    ensures g'.check as int == g'.counter as int % 2 && g'.check <= 1
  {
    g.(counter := value, check := value % 2)
  }

  /**
   * The handler as a function of what it reads: on success, the new data of
   * the first account; on failure, the error.
   */
  function Process(programId: Pubkey, accounts: seq<AccountState>, instructionData: seq<u8>)
    : (r: Result<seq<u8>, ProgramError>)
    ensures r.Success? ==> |accounts| > 0 && |r.value| == |accounts[0].data|
  {
    if |accounts| == 0 then Failure(NotEnoughAccountKeys)
    else if accounts[0].owner != programId then Failure(IncorrectProgramId)
    else match RecordFromSlice(accounts[0].data)
      case Failure(e) => Failure(AccountDataError(e))
      case Success(g) =>
        match U32FromSlice(instructionData)
        case Failure(e) => Failure(InstructionDataError(e))
        case Success(value) => Success(EncodeRecord(SetCounter(g, value)))
  }

  /** `process_instruction`: checks, decodes, updates and writes back the first account in place. */
  method ProcessInstruction(programId: Pubkey, accounts: seq<Account>, instructionData: seq<u8>)
    returns (r: Result<(), ProgramError>)
    modifies if |accounts| == 0 then {} else {accounts[0].data}
    ensures var p := Process(programId, old(Snapshot(accounts)), instructionData);
      && (r.Success? <==> p.Success?)
      && (r.Failure? ==> r.error == p.error)
      && (p.Success? ==> accounts[0].data[..] == p.value)
    ensures r.Failure? && |accounts| > 0 ==> accounts[0].data[..] == old(accounts[0].data[..])
    ensures forall a :: a in accounts && a.data != accounts[0].data ==> a.data[..] == old(a.data[..])
  {
    if |accounts| == 0 {
      return Failure(NotEnoughAccountKeys);
    }
    var account := accounts[0];
    if account.owner != programId {
      return Failure(IncorrectProgramId);
    }
    var decoded := RecordFromSlice(account.data[..]);
    if decoded.Failure? {
      return Failure(AccountDataError(decoded.error));
    }
    var value := U32FromSlice(instructionData);
    if value.Failure? {
      return Failure(InstructionDataError(value.error));
    }
    var greeting := SetCounter(decoded.value, value.value);
    var bytes := EncodeRecord(greeting);
    forall i | 0 <= i < account.data.Length {
      account.data[i] := bytes[i];
    }
    r := Success(());
  }

  /**
   * The handler succeeds exactly when there is a first account, the program
   * owns it, its data is 8 bytes and the instruction data is 4 bytes; the new
   * data is then the record whose counter is the little-endian instruction
   * data and whose check is that counter's parity.
   */
  lemma ProcessSucceedsIff(programId: Pubkey, accounts: seq<AccountState>, instructionData: seq<u8>)
    ensures Process(programId, accounts, instructionData).Success?
        <==> && |accounts| > 0
             && accounts[0].owner == programId
             && |accounts[0].data| == RecordSize
             && |instructionData| == U32Size
    ensures Process(programId, accounts, instructionData).Success? ==>
      var v := LittleEndian(instructionData[0], instructionData[1], instructionData[2], instructionData[3]);
      Process(programId, accounts, instructionData).value == EncodeRecord(GreetingAccount(v, v % 2))
  {
    if |instructionData| == U32Size {
      EncodeDecodeU32(instructionData);
      DecodeEncodeU32(U32FromSlice(instructionData).value);
    }
  }

  /** Which error each failing call returns; the checks run in source order. */
  lemma ProcessErrors(programId: Pubkey, accounts: seq<AccountState>, instructionData: seq<u8>)
    ensures |accounts| == 0 ==> Process(programId, accounts, instructionData) == Failure(NotEnoughAccountKeys)
    ensures |accounts| > 0 && accounts[0].owner != programId ==>
      Process(programId, accounts, instructionData) == Failure(IncorrectProgramId)
    ensures |accounts| > 0 && accounts[0].owner == programId && |accounts[0].data| != RecordSize ==>
      Process(programId, accounts, instructionData)
        == Failure(AccountDataError(if |accounts[0].data| < RecordSize then UnexpectedLength else NotAllBytesRead))
    ensures (&& |accounts| > 0 && accounts[0].owner == programId && |accounts[0].data| == RecordSize
             && |instructionData| != U32Size) ==>
      Process(programId, accounts, instructionData)
        == Failure(InstructionDataError(if |instructionData| < U32Size then UnexpectedLength else NotAllBytesRead))
  {
  }

  /** After a successful call the stored record satisfies `check == counter % 2`, so `check` is 0 or 1. */
  lemma ProcessKeepsParity(programId: Pubkey, accounts: seq<AccountState>, instructionData: seq<u8>)
    requires Process(programId, accounts, instructionData).Success?
    ensures var g := RecordFromSlice(Process(programId, accounts, instructionData).value);
      && g.Success?
      && g.value.check as int == g.value.counter as int % 2
      && g.value.check <= 1
  {
    var g := RecordFromSlice(accounts[0].data).value;
    var v := U32FromSlice(instructionData).value;
    RecordRoundTrip(SetCounter(g, v));
  }

  /**
   * Overwrite, not increment: whatever valid record the first account held
   * before, and whatever the other accounts are, a successful call writes
   * the same bytes.
   */
  lemma ProcessOverwrites(programId: Pubkey, a: seq<AccountState>, b: seq<AccountState>, instructionData: seq<u8>)
    requires Process(programId, a, instructionData).Success?
    requires |b| > 0 && b[0].owner == programId && |b[0].data| == RecordSize
    ensures Process(programId, b, instructionData) == Process(programId, a, instructionData)
  {
    ProcessSucceedsIff(programId, a, instructionData);
    ProcessSucceedsIff(programId, b, instructionData);
  }

  /** Idempotence: repeating a successful call on the data it wrote writes the same data again. */
  lemma ProcessIdempotent(programId: Pubkey, accounts: seq<AccountState>, instructionData: seq<u8>)
    requires Process(programId, accounts, instructionData).Success?
    ensures var d := Process(programId, accounts, instructionData).value;
      Process(programId, accounts[0 := accounts[0].(data := d)], instructionData) == Success(d)
  {
    var d := Process(programId, accounts, instructionData).value;
    var accounts' := accounts[0 := accounts[0].(data := d)];
    ProcessSucceedsIff(programId, accounts, instructionData);
    ProcessSucceedsIff(programId, accounts', instructionData);
  }

  /**
   * The first greeting of the tests: whatever valid record the account holds,
   * `[1, 2, 3, 4]` stores counter 1 + 2*256 + 3*256^2 + 4*256^3, which is odd,
   * so check 1.
   */
  lemma GreetWithOneTwoThreeFour(programId: Pubkey, data: seq<u8>)
    requires |data| == RecordSize
    ensures Process(programId, [AccountState(programId, data)], [1, 2, 3, 4])
         == Success(EncodeRecord(GreetingAccount(1 + 2 * 256 + 3 * 256 * 256 + 4 * 256 * 256 * 256, 1)))
  {
    ProcessSucceedsIff(programId, [AccountState(programId, data)], [1, 2, 3, 4]);
  }

  /**
   * The second greeting of the integration test: `[4, 3, 2, 1]` stores
   * counter 4 + 3*256 + 2*256^2 + 1*256^3, which is even, so check 0.
   */
  lemma GreetWithFourThreeTwoOne(programId: Pubkey, data: seq<u8>)
    requires |data| == RecordSize
    ensures Process(programId, [AccountState(programId, data)], [4, 3, 2, 1])
         == Success(EncodeRecord(GreetingAccount(4 + 3 * 256 + 2 * 256 * 256 + 1 * 256 * 256 * 256, 0)))
  {
    ProcessSucceedsIff(programId, [AccountState(programId, data)], [4, 3, 2, 1]);
  }

  /** The snapshot of a one-account list. */
  lemma SnapshotOfOne(a: Account)
    ensures Snapshot([a]) == [AccountState(a.owner, a.data[..])]
  {
  }

  /**
   * Successive instructions sent to one account, as the tests send them:
   * each call sees the data the previous one wrote, and the run stops at the
   * first failure. The result is the data after the last call.
   */
  function ProcessAll(programId: Pubkey, account: AccountState, payloads: seq<seq<u8>>)
    : (r: Result<seq<u8>, ProgramError>)
    ensures r.Success? ==> |r.value| == |account.data|
    decreases |payloads|
  {
    if payloads == [] then Success(account.data)
    else match Process(programId, [account], payloads[0])
      case Failure(e) => Failure(e)
      case Success(d) => ProcessAll(programId, account.(data := d), payloads[1..])
  }

  /**
   * A run of one or more instructions succeeds exactly when the program owns
   * the account, its data is 8 bytes and every instruction is 4 bytes.
   */
  lemma {:induction false} ProcessAllSucceedsIff(programId: Pubkey, account: AccountState, payloads: seq<seq<u8>>)
    requires payloads != []
    ensures ProcessAll(programId, account, payloads).Success?
        <==> && account.owner == programId
             && |account.data| == RecordSize
             && forall i :: 0 <= i < |payloads| ==> |payloads[i]| == U32Size
    decreases |payloads|
  {
    ProcessSucceedsIff(programId, [account], payloads[0]);
    if |payloads| > 1 && Process(programId, [account], payloads[0]).Success? {
      var d := Process(programId, [account], payloads[0]).value;
      ProcessAllSucceedsIff(programId, account.(data := d), payloads[1..]);
      assert forall i :: 1 <= i < |payloads| ==> payloads[i] == payloads[1..][i - 1];
    }
  }

  /**
   * Overwrite over a whole run: after any number of successful greetings the
   * account holds the record of the last instruction alone, whose check is
   * the parity of its counter.
   */
  lemma {:induction false} LastGreetingWins(programId: Pubkey, account: AccountState, payloads: seq<seq<u8>>)
    requires payloads != []
    requires ProcessAll(programId, account, payloads).Success?
    ensures var p := payloads[|payloads| - 1];
      && |p| == U32Size
      && var v := LittleEndian(p[0], p[1], p[2], p[3]);
      ProcessAll(programId, account, payloads).value == EncodeRecord(GreetingAccount(v, v % 2))
    decreases |payloads|
  {
    ProcessSucceedsIff(programId, [account], payloads[0]);
    var d := Process(programId, [account], payloads[0]).value;
    if |payloads| > 1 {
      LastGreetingWins(programId, account.(data := d), payloads[1..]);
      assert payloads[1..][|payloads[1..]| - 1] == payloads[|payloads| - 1];
    }
  }
}
