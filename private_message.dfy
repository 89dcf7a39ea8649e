/**
  The `send` instruction of the private-message program: the per-recipient
  `Inbox` account, the check that binds the caller's single new-address claim
  to (recipient, message index), and the hand-off of the payload to the
  compressed-state system by a cross-program invocation.

  Address derivation (`Pubkey::find_program_address`) and the downstream
  program are not modelled: both enter as function-typed parameters, so every
  property below holds whatever those functions are.
 */
module PrivateMessage {
  import opened LittleEndian

  /** A 32-byte public key, also the type of an address seed. */
  type Pubkey = s: seq<Byte> | |s| == 32 witness seq(32, _ => 0)

  datatype Option<T> = None | Some(value: T)

  /**
    `find_program_address(seeds, program_id)`: the derived address and its bump.
    Hashing, the bump search and the off-curve test stay abstract.
   */
  type Deriver = (seq<seq<Byte>>, Pubkey) -> (Pubkey, Byte)

  /** The stored fields of an `Inbox` account, as a value. */
  datatype InboxRecord = InboxRecord(
    isInitialized: bool,
    address: Pubkey,
    bump: Byte,
    numberOfMessages: U64)
  {
    /** `IsInitialized::is_initialized`: the stored flag. */
    predicate IsInitialized() { isInitialized }
  }

  /**
    The data of an account that `init_if_needed` has just allocated: all zero,
    so not yet initialised and with room for the full range of counter values.
   */
  function ZeroedInbox(): (r: InboxRecord)
    ensures !r.IsInitialized() && r.numberOfMessages == 0
    ensures Headroom(r) == U64_MODULUS
  {
    InboxRecord(false, seq(32, _ => 0), 0, 0)
  }

  /**
    One new-address claim of the downstream payload. Only `seed` is read by
    `send`; the queue and tree indices the downstream program needs are kept
    as opaque bytes.
   */
  datatype NewAddressParams = NewAddressParams(seed: Pubkey, treeInfo: seq<Byte>)

  /**
    The caller's `InstructionDataInvoke`: its new-address claims, and every
    other field (proof, compressed accounts carrying the encrypted message,
    fees) as one opaque part that `send` never looks at.
   */
  datatype InvokeData = InvokeData(newAddressParams: seq<NewAddressParams>, otherFields: seq<Byte>)

  /** The accounts of `SendCtx`, the program's own id and the inbox bump Anchor found. */
  datatype SendContext = SendContext(
    programId: Pubkey,
    signer: Pubkey,
    inboxBump: Byte,
    registeredProgramPda: Pubkey,
    noopProgram: Pubkey,
    accountCompressionAuthority: Pubkey,
    systemProgram: Pubkey,
    lightSystemProgram: Pubkey,
    accountCompression: Pubkey,
    remainingAccounts: seq<Pubkey>)

  /** The accounts of the downstream `InvokeInstruction`. */
  datatype InvokeAccounts = InvokeAccounts(
    feePayer: Pubkey,
    authority: Pubkey,
    registeredProgramPda: Pubkey,
    noopProgram: Pubkey,
    accountCompressionAuthority: Pubkey,
    accountCompressionProgram: Pubkey,
    compressedSolPda: Option<Pubkey>,
    compressionRecipient: Option<Pubkey>,
    systemProgram: Pubkey)

  /** A cross-program invocation: callee, accounts, extra accounts and payload. */
  datatype Invocation = Invocation(
    program: Pubkey,
    accounts: InvokeAccounts,
    remainingAccounts: seq<Pubkey>,
    payload: InvokeData)

  /** What the downstream program answers. */
  datatype CpiResult = CpiOk | CpiErr(code: nat)

  datatype SendError =
    | RecipientMismatch      // `CustomError::RecipientMismatch`
    | Downstream(code: nat)  // an error of the invoked program, propagated by `?`

  datatype Outcome = Pass | Fail(error: SendError)

  /** What one `send` leaves behind: the stored inbox, the invocation issued (if any), the answer. */
  datatype Step = Step(inbox: InboxRecord, forwarded: Option<Invocation>, outcome: Outcome)

  /** How many more sends the counter can take without overflowing. */
  function Headroom(rec: InboxRecord): nat
  {
    if rec.isInitialized then U64_MAX - rec.numberOfMessages else U64_MODULUS
  }

  /** The seeds of the per-message address: the recipient and the counter's LE bytes. */
  function MessageSeeds(recipient: Pubkey, index: U64): (seeds: seq<seq<Byte>>)
    ensures |seeds| == 2 && seeds[0] == recipient
    ensures |seeds[1]| == 8 && FromLeBytes(seeds[1]) == index
  {
    LeRoundTrip(index);
    [recipient, ToLeBytes(index)]
  }

  /** The address the single claim must carry for message `index` of `recipient`. */
  function ExpectedSeed(derive: Deriver, programId: Pubkey, recipient: Pubkey, index: U64): Pubkey
  {
    derive(MessageSeeds(recipient, index), programId).0
  }

  /** The update of the inbox fields before the check. */
  function Touch(rec: InboxRecord, recipient: Pubkey, bump: Byte): (r: InboxRecord)
    requires Headroom(rec) > 0
    ensures r.IsInitialized()
    ensures Headroom(r) == Headroom(rec) - 1
    ensures rec.IsInitialized() ==> r.address == rec.address && r.bump == rec.bump
  {
    if rec.isInitialized then rec.(numberOfMessages := rec.numberOfMessages + 1)
    else InboxRecord(true, recipient, bump, 0)
  }

  /** The message index the claim of this send is checked against. */
  function ValidationIndex(rec: InboxRecord): (index: U64)
    requires Headroom(rec) > 0
    ensures rec.isInitialized ==> index == rec.numberOfMessages + 1
    ensures !rec.isInitialized ==> index == 0
  {
    Touch(rec, rec.address, rec.bump).numberOfMessages
  }

  /** The claim list holds exactly one claim and its seed is `expected`. */
  predicate ClaimMatches(data: InvokeData, expected: Pubkey)
    ensures ClaimMatches(data, expected) ==>
              |data.newAddressParams| == 1
              && data.newAddressParams == [NewAddressParams(expected, data.newAddressParams[0].treeInfo)]
  {
    |data.newAddressParams| == 1 && data.newAddressParams[0].seed == expected
  }

  /** The invocation of the compressed-state system's `invoke`. */
  function BuildInvocation(ctx: SendContext, data: InvokeData): (inv: Invocation)
    ensures inv.payload == data && inv.remainingAccounts == ctx.remainingAccounts
    ensures inv.accounts.feePayer == inv.accounts.authority == ctx.signer
    ensures inv.accounts.compressedSolPda.None? && inv.accounts.compressionRecipient.None?
  {
    Invocation(
      ctx.lightSystemProgram,
      InvokeAccounts(
        ctx.signer, ctx.signer, ctx.registeredProgramPda, ctx.noopProgram,
        ctx.accountCompressionAuthority, ctx.accountCompression,
        None, None, ctx.systemProgram),
      ctx.remainingAccounts,
      data)
  }

  /**
    The whole `send` on values. A failed instruction is not written back,
    so every failure leaves the stored inbox as it was.
   */
  function SendSpec(rec: InboxRecord, ctx: SendContext, recipient: Pubkey, data: InvokeData,
                    derive: Deriver, cpi: Invocation -> CpiResult): (step: Step)
    requires Headroom(rec) > 0
    ensures step.outcome.Fail? ==> step.inbox == rec
    ensures step.outcome.Pass? ==> step.inbox.IsInitialized() && Headroom(step.inbox) == Headroom(rec) - 1
    ensures step.outcome.Pass? ==> step.forwarded == Some(BuildInvocation(ctx, data))
    ensures step.outcome == Fail(RecipientMismatch) <==> step.forwarded.None?
  {
    var touched := Touch(rec, recipient, ctx.inboxBump);
    if !ClaimMatches(data, ExpectedSeed(derive, ctx.programId, recipient, touched.numberOfMessages)) then
      Step(rec, None, Fail(RecipientMismatch))
    else
      var invocation := BuildInvocation(ctx, data);
      match cpi(invocation)
      case CpiOk => Step(touched, Some(invocation), Pass)
      case CpiErr(code) => Step(rec, Some(invocation), Fail(Downstream(code)))
  }

  /** The `Inbox` account as the handler sees it through `&mut`. */
  class Inbox {
    var isInitialized: bool
    var address: Pubkey
    var bump: Byte
    var numberOfMessages: U64

    function Record(): InboxRecord
      reads this
    {
      InboxRecord(isInitialized, address, bump, numberOfMessages)
    }

    /** Deserialises a stored account; a new account arrives as ZeroedInbox. */
    constructor Load(stored: InboxRecord)
      ensures Record() == stored
    {
      isInitialized := stored.isInitialized;
      address := stored.address;
      bump := stored.bump;
      numberOfMessages := stored.numberOfMessages;
    }

    /** Puts back a snapshot: what the runtime does when the instruction aborts. */
    method Restore(saved: InboxRecord)
      modifies this
      ensures Record() == saved
    {
      isInitialized := saved.isInitialized;
      address := saved.address;
      bump := saved.bump;
      numberOfMessages := saved.numberOfMessages;
    }

    /** The `send` handler run against this inbox account. */
    method Send(ctx: SendContext, recipient: Pubkey, data: InvokeData,
                derive: Deriver, cpi: Invocation -> CpiResult)
      returns (forwarded: Option<Invocation>, outcome: Outcome)
      requires Headroom(Record()) > 0
      modifies this
      ensures outcome.Pass? ==> Record() == Touch(old(Record()), recipient, ctx.inboxBump)
      ensures outcome.Fail? ==> Record() == old(Record())
      ensures forwarded.Some? <==>
                ClaimMatches(data, ExpectedSeed(derive, ctx.programId, recipient, ValidationIndex(old(Record()))))
      ensures forwarded.Some? ==> forwarded.value == BuildInvocation(ctx, data)
      ensures var step := SendSpec(old(Record()), ctx, recipient, data, derive, cpi);
              Record() == step.inbox && forwarded == step.forwarded && outcome == step.outcome
    {
      var saved := Record();
      if isInitialized {
        numberOfMessages := numberOfMessages + 1;
      } else {
        bump := ctx.inboxBump;
        numberOfMessages := 0;
        address := recipient;
        isInitialized := true;
      }
      assert Record() == Touch(saved, recipient, ctx.inboxBump);

      if |data.newAddressParams| != 1
         || data.newAddressParams[0].seed != ExpectedSeed(derive, ctx.programId, recipient, numberOfMessages)
      {
        Restore(saved);
        return None, Fail(RecipientMismatch);
      }

      var invocation := BuildInvocation(ctx, data);
      forwarded := Some(invocation);
      match cpi(invocation)
      case CpiOk =>
        outcome := Pass;
      case CpiErr(code) =>
        Restore(saved);
        outcome := Fail(Downstream(code));
    }
  }
}
