/**
  What `send` guarantees: the inbox life cycle (Absent, then Initialized with
  counter 0, then +1 per accepted message), the exact message index each claim
  is checked against, rejection of every other claim list, no trace of a
  failed send, and the payload forwarded untouched. The last part follows a
  whole sequence of sends to one inbox.
 */
module SendProperties {
  import opened LittleEndian
  import opened PrivateMessage

  /**
    How an inbox may change: once initialised it stays initialised, keeps its
    recipient and bump, and its counter never goes down.
   */
  predicate EvolvesTo(before: InboxRecord, after: InboxRecord)
  {
    before.IsInitialized() ==>
      after.IsInitialized()
      && after.address == before.address
      && after.bump == before.bump
      && after.numberOfMessages >= before.numberOfMessages
  }

  /** First accepted send to a fresh inbox: counter 0, recipient and bump recorded, flag set. */
  lemma FirstSendInitialises(rec: InboxRecord, ctx: SendContext, recipient: Pubkey, data: InvokeData,
                             derive: Deriver, cpi: Invocation -> CpiResult)
    requires !rec.IsInitialized()
    ensures var step := SendSpec(rec, ctx, recipient, data, derive, cpi);
            step.outcome.Pass? ==> step.inbox == InboxRecord(true, recipient, ctx.inboxBump, 0)
  {
  }

  /** An accepted send to an initialised inbox adds exactly one and touches nothing else. */
  lemma LaterSendIncrements(rec: InboxRecord, ctx: SendContext, recipient: Pubkey, data: InvokeData,
                            derive: Deriver, cpi: Invocation -> CpiResult)
    requires rec.IsInitialized() && rec.numberOfMessages < U64_MAX
    ensures var step := SendSpec(rec, ctx, recipient, data, derive, cpi);
            step.outcome.Pass? ==>
              step.inbox.IsInitialized()
              && step.inbox.numberOfMessages == rec.numberOfMessages + 1
              && step.inbox.address == rec.address
              && step.inbox.bump == rec.bump
  {
  }

  /** Whatever the outcome, the flag is sticky, recipient and bump are fixed, the counter monotone. */
  lemma SendEvolvesInbox(rec: InboxRecord, ctx: SendContext, recipient: Pubkey, data: InvokeData,
                         derive: Deriver, cpi: Invocation -> CpiResult)
    requires Headroom(rec) > 0
    ensures EvolvesTo(rec, SendSpec(rec, ctx, recipient, data, derive, cpi).inbox)
  {
  }

  /** A claim list that does not hold exactly one claim is rejected, whatever its seeds. */
  lemma WrongClaimCountRejected(rec: InboxRecord, ctx: SendContext, recipient: Pubkey, data: InvokeData,
                                derive: Deriver, cpi: Invocation -> CpiResult)
    requires Headroom(rec) > 0
    requires |data.newAddressParams| != 1
    ensures SendSpec(rec, ctx, recipient, data, derive, cpi) == Step(rec, None, Fail(RecipientMismatch))
  {
  }

  /**
    A send is accepted exactly when its one claim carries the address derived
    from the recipient and the counter value after the update (0 for a fresh
    inbox, the old counter plus one otherwise), and the downstream program
    accepts the invocation.
   */
  lemma SendAcceptedIff(rec: InboxRecord, ctx: SendContext, recipient: Pubkey, data: InvokeData,
                        derive: Deriver, cpi: Invocation -> CpiResult)
    requires Headroom(rec) > 0
    ensures var step := SendSpec(rec, ctx, recipient, data, derive, cpi);
            step.outcome.Pass? <==>
              |data.newAddressParams| == 1
              && data.newAddressParams[0].seed
                   == ExpectedSeed(derive, ctx.programId, recipient,
                                   if rec.IsInitialized() then rec.numberOfMessages + 1 else 0)
              && cpi(BuildInvocation(ctx, data)) == CpiOk
  {
  }

  /**
    Whenever something is forwarded it is the caller's payload, unmodified,
    sent to the compressed-state program with the signer as fee payer and
    authority, no compressed-SOL or recipient account, and the caller's extra
    accounts in their order.
   */
  lemma ForwardedPayloadIsCallers(rec: InboxRecord, ctx: SendContext, recipient: Pubkey, data: InvokeData,
                                  derive: Deriver, cpi: Invocation -> CpiResult)
    requires Headroom(rec) > 0
    ensures var step := SendSpec(rec, ctx, recipient, data, derive, cpi);
            step.forwarded.Some? ==>
              var inv := step.forwarded.value;
              inv.payload == data
              && inv.program == ctx.lightSystemProgram
              && inv.accounts.feePayer == ctx.signer
              && inv.accounts.authority == ctx.signer
              && inv.accounts.compressedSolPda == None
              && inv.accounts.compressionRecipient == None
              && inv.remainingAccounts == ctx.remainingAccounts
  {
  }

  /**
    A claim for any other message index is rejected, provided the derivation
    tells the two indexes apart. This covers a stale seed on a second send and
    a first send that skips index 0.
   */
  lemma OtherIndexRejected(rec: InboxRecord, ctx: SendContext, recipient: Pubkey, data: InvokeData,
                           derive: Deriver, cpi: Invocation -> CpiResult, index: U64)
    requires Headroom(rec) > 0
    requires |data.newAddressParams| == 1
    requires data.newAddressParams[0].seed == ExpectedSeed(derive, ctx.programId, recipient, index)
    requires ExpectedSeed(derive, ctx.programId, recipient, index)
             != ExpectedSeed(derive, ctx.programId, recipient, ValidationIndex(rec))
    ensures SendSpec(rec, ctx, recipient, data, derive, cpi) == Step(rec, None, Fail(RecipientMismatch))
  {
  }

  /** Distinct message indexes give distinct derivation inputs for the same recipient. */
  lemma MessageSeedsInjective(recipient: Pubkey, a: U64, b: U64)
    requires a != b
    ensures MessageSeeds(recipient, a) != MessageSeeds(recipient, b)
  {
    ToLeBytesInjective(a, b);
    assert MessageSeeds(recipient, a)[1] != MessageSeeds(recipient, b)[1];
  }

  /**
    One send request: the accounts it came with, its payload, and how the
    downstream program answers at that point of the run. The downstream
    program has its own state, so an identical invocation may fail once and
    be accepted on a later retry.
   */
  datatype Request = Request(ctx: SendContext, data: InvokeData, cpi: Invocation -> CpiResult)

  /** The inbox after a run of sends, and the message index of each accepted send, in order. */
  datatype Trace = Trace(inbox: InboxRecord, accepted: seq<U64>)

  /** Sends `reqs` to the inbox of `recipient` one after the other. */
  function Run(rec: InboxRecord, recipient: Pubkey, reqs: seq<Request>,
               derive: Deriver): Trace
    requires |reqs| <= Headroom(rec)
    decreases |reqs|
  {
    if reqs == [] then Trace(rec, [])
    else
      var step := SendSpec(rec, reqs[0].ctx, recipient, reqs[0].data, derive, reqs[0].cpi);
      var rest := Run(step.inbox, recipient, reqs[1..], derive);
      if step.outcome.Pass? then Trace(rest.inbox, [step.inbox.numberOfMessages] + rest.accepted)
      else rest
  }

  /**
    Over any run, the accepted sends are indexed consecutively from the index
    the first one is checked against (0 for a fresh inbox), the final counter is
    the index of the last accepted send, a fresh inbox is bound to its
    recipient, and nothing changes when no send is accepted.
   */
  lemma {:induction false} RunIndexesConsecutively(rec: InboxRecord, recipient: Pubkey, reqs: seq<Request>,
                                                   derive: Deriver)
    requires |reqs| <= Headroom(rec)
    decreases |reqs|
    ensures var t := Run(rec, recipient, reqs, derive);
            var k := |t.accepted|;
            (forall i :: 0 <= i < k ==> t.accepted[i] == ValidationIndex(rec) + i)
            && (k == 0 ==> t.inbox == rec)
            && (k > 0 ==> t.inbox.IsInitialized()
                          && t.inbox.numberOfMessages == ValidationIndex(rec) + k - 1
                          && (!rec.IsInitialized() ==> t.inbox.address == recipient))
            && EvolvesTo(rec, t.inbox)
  {
    if reqs != [] {
      var step := SendSpec(rec, reqs[0].ctx, recipient, reqs[0].data, derive, reqs[0].cpi);
      var rest := Run(step.inbox, recipient, reqs[1..], derive);
      RunIndexesConsecutively(step.inbox, recipient, reqs[1..], derive);
      if step.outcome.Pass? {
        var t := Trace(rest.inbox, [step.inbox.numberOfMessages] + rest.accepted);
        assert Run(rec, recipient, reqs, derive) == t;
        assert step.inbox.numberOfMessages == ValidationIndex(rec);
        if |rest.accepted| > 0 {
          assert ValidationIndex(step.inbox) == ValidationIndex(rec) + 1;
        }
        forall i | 0 <= i < |t.accepted|
          ensures t.accepted[i] == ValidationIndex(rec) + i
        {
          if i > 0 { assert t.accepted[i] == rest.accepted[i - 1]; }
        }
      } else {
        assert Run(rec, recipient, reqs, derive) == rest;
        assert step.inbox == rec;
      }
    }
  }

  /** From a fresh inbox, the n-th accepted message (counting from 0) is checked against index n. */
  lemma FreshInboxIndexesFromZero(recipient: Pubkey, reqs: seq<Request>, derive: Deriver)
    requires |reqs| <= Headroom(ZeroedInbox())
    ensures var t := Run(ZeroedInbox(), recipient, reqs, derive);
            (forall i :: 0 <= i < |t.accepted| ==> t.accepted[i] == i)
            && (|t.accepted| > 0 ==> t.inbox.numberOfMessages == |t.accepted| - 1)
  {
    RunIndexesConsecutively(ZeroedInbox(), recipient, reqs, derive);
  }

  /**
    A send that the downstream program rejects does not use up its index: the
    same request retried later, when the downstream program accepts it, is
    checked against the same index and accepted.
   */
  lemma RetryAfterDownstreamFailure(rec: InboxRecord, recipient: Pubkey, ctx: SendContext, data: InvokeData,
                                    derive: Deriver, failing: Invocation -> CpiResult,
                                    accepting: Invocation -> CpiResult)
    requires 2 <= Headroom(rec)
    requires SendSpec(rec, ctx, recipient, data, derive, failing).outcome.Fail?
    requires SendSpec(rec, ctx, recipient, data, derive, failing).forwarded.Some?
    requires accepting(BuildInvocation(ctx, data)) == CpiOk
    ensures Run(rec, recipient, [Request(ctx, data, failing), Request(ctx, data, accepting)], derive).accepted
            == [ValidationIndex(rec)]
  {
    var reqs := [Request(ctx, data, failing), Request(ctx, data, accepting)];
    var first := SendSpec(rec, ctx, recipient, data, derive, failing);
    var second := SendSpec(rec, ctx, recipient, data, derive, accepting);
    assert first.inbox == rec;
    assert ClaimMatches(data, ExpectedSeed(derive, ctx.programId, recipient, ValidationIndex(rec)));
    assert second.outcome.Pass? && second.inbox.numberOfMessages == ValidationIndex(rec);
    assert reqs[1..] == [Request(ctx, data, accepting)];
    assert reqs[1..][1..] == [];
    assert Run(second.inbox, recipient, [], derive).accepted == [];
    assert Run(rec, recipient, reqs[1..], derive).accepted == [ValidationIndex(rec)];
  }
}
