# Private-message `send` handler, modelled in Dafny

This project models the `send` instruction of the private-message program, an
Anchor program on Solana. Each recipient has one `Inbox` account. The account
holds `is_initialized`, the recipient `address`, the PDA `bump` and a `u64`
counter `number_of_messages`. A send goes through these steps:

1. It updates the inbox in place. A fresh inbox gets counter 0, the recipient
   and the bump, and its flag is set. An initialised inbox gets counter + 1.
2. It requires the caller's `InstructionDataInvoke` to hold exactly one
   new-address claim. That claim's seed must equal
   `find_program_address([recipient, counter.to_le_bytes()], program_id).0`,
   computed with the counter value after step 1. Otherwise it fails with
   `RecipientMismatch`.
3. It forwards the caller's payload, unchanged, to the light system program's
   `invoke` by a cross-program invocation. It returns that call's error, if
   there is one.

A failing instruction is not written back to the ledger. So every failure
leaves the stored inbox exactly as it was before the call.

Files:

- `little_endian.dfy` (module `LittleEndian`): `u8`/`u64` as subset types,
  `to_le_bytes`/`from_le_bytes` and their round trips.
- `private_message.dfy` (module `PrivateMessage`): the account and payload
  types, the pure definition `SendSpec` of one send, and the class `Inbox`.
  `Inbox.Send` is the imperative handler. It mutates the fields before the
  check and puts the snapshot back on failure, and it is proved equal to
  `SendSpec`.
- `send_properties.dfy` (module `SendProperties`): the properties of `SendSpec`
  and of a run of many sends to one inbox.

`find_program_address` is a parameter of type `Deriver`, and the downstream
program's answer is a parameter of type `Invocation -> CpiResult`. Every
property therefore holds for every derivation function. The properties of one
send hold for every downstream answer. In a run of sends, each request carries
its own downstream answer. That way an identical invocation can fail and then
succeed on a retry, as a downstream program with its own state (address
uniqueness, the fee payer's balance) can behave. Where a property needs two
message indexes to derive different addresses, the lemma says so in a
`requires`.

### Ordering and rollback

- An initialised inbox is incremented before the check (lib.rs:20-21, 29-30),
  so the check uses the new value and a fresh inbox is checked against 0.
- Any error, including a downstream error propagated by `?` at lib.rs:51,
  aborts the whole instruction, including the `init_if_needed` allocation, so
  the stored inbox is unchanged on every failure.

## Model

| member | source | states |
|---|---|---|
| `LittleEndian.EncodeLe` | programs/private-message/src/lib.rs:30 | The little-endian encoding at width k has exactly k bytes, and its first byte is the low byte of the number |
| `LittleEndian.DecodeLe` | programs/private-message/src/lib.rs:30 | Decoding a byte string gives a value below 256^length |
| `LittleEndian.ToLeBytes` | programs/private-message/src/lib.rs:30 | `number_of_messages.to_le_bytes()` is always 8 bytes |
| `LittleEndian.DecodeEncode` | programs/private-message/src/lib.rs:30 | Decoding the k-byte encoding of any number below 256^k gives back that number |
| `LittleEndian.EncodeDecode` | programs/private-message/src/lib.rs:30 | Re-encoding a decoded byte string at its own width gives back the string |
| `LittleEndian.LeRoundTrip` | programs/private-message/src/lib.rs:30 | `from_le_bytes(to_le_bytes(n)) == n` for every u64 |
| `LittleEndian.LeBytesRoundTrip` | programs/private-message/src/lib.rs:30 | Every 8-byte string is the encoding of the u64 it decodes to |
| `LittleEndian.ToLeBytesInjective` | programs/private-message/src/lib.rs:30 | Distinct counters have distinct LE encodings |
| `PrivateMessage.ZeroedInbox` | programs/private-message/src/lib.rs:90-97 | The data `init_if_needed` allocates: not initialised, counter 0, room for every counter value |
| `PrivateMessage.InboxRecord.IsInitialized` | programs/private-message/src/lib.rs:67-70 | `is_initialized()`: the stored flag, read by every property about the flag's stickiness |
| `PrivateMessage.MessageSeeds` | programs/private-message/src/lib.rs:30 | The two derivation seeds: the recipient, then 8 bytes that decode back to the message index |
| `PrivateMessage.ExpectedSeed` | programs/private-message/src/lib.rs:30 | The address the claim must carry: the first component of `find_program_address` over `MessageSeeds` and the program id |
| `PrivateMessage.Touch` | programs/private-message/src/lib.rs:20-27 | The in-place update before the check: the inbox ends initialised, one unit of counter room is used, and an initialised inbox keeps its address and bump |
| `PrivateMessage.ClaimMatches` | programs/private-message/src/lib.rs:29-30 | The check passes only if the claim list is exactly one claim whose seed is the expected address |
| `PrivateMessage.BuildInvocation` | programs/private-message/src/lib.rs:37-51 | The invocation carries the caller's data and remaining accounts, the signer as fee payer and authority, and no compressed-SOL or recipient account |
| `PrivateMessage.SendSpec` | programs/private-message/src/lib.rs:14-54 | One send on values. A failure leaves the inbox as it was. A success leaves it initialised with one unit of counter room used and forwards `BuildInvocation` of the caller's data. Nothing is forwarded exactly on `RecipientMismatch` |
| `PrivateMessage.ValidationIndex` | programs/private-message/src/lib.rs:20-30 | The claim is checked against index 0 on a fresh inbox, and against the old counter + 1 on an initialised one |
| `PrivateMessage.Inbox.Load` | programs/private-message/src/lib.rs:57-63 | Loading an account gives an `Inbox` whose four fields are the stored ones |
| `PrivateMessage.Inbox.Restore` | programs/private-message/src/lib.rs:29-32 | After the abort, the fields are the snapshot taken before the update |
| `PrivateMessage.Inbox.Send` | programs/private-message/src/lib.rs:14-54 | On success the fields are the updated record, and on failure they are unchanged. An invocation is issued exactly when the single claim matches the derived seed at the validation index. Whatever is issued is the invocation built from the context and the caller's data. The new state, the invocation and the outcome equal `SendSpec` of the old state |
| `SendProperties.FirstSendInitialises` | programs/private-message/src/lib.rs:22-27 | An accepted first send sets counter 0, the recipient, the bump Anchor found and the initialised flag |
| `SendProperties.LaterSendIncrements` | programs/private-message/src/lib.rs:20-21 | An accepted send to an initialised inbox adds exactly 1 and keeps the address and bump |
| `SendProperties.SendEvolvesInbox` | programs/private-message/src/lib.rs:20-27 | Whatever the outcome, `is_initialized()` stays true once true, address and bump never change after that, and the counter never decreases |
| `SendProperties.WrongClaimCountRejected` | programs/private-message/src/lib.rs:29-31 | Zero claims or two or more claims give `RecipientMismatch`, whatever the seeds, with the inbox unchanged and nothing forwarded |
| `SendProperties.SendAcceptedIff` | programs/private-message/src/lib.rs:20-53 | The send is accepted if and only if there is exactly one claim, its seed is the derived address for (recipient, counter after the update), and the downstream call succeeds |
| `SendProperties.ForwardedPayloadIsCallers` | programs/private-message/src/lib.rs:34-51 | What is forwarded is the caller's data, unmodified, together with the caller's remaining accounts. It goes to the light system program, with the signer as fee payer and authority and no compressed-SOL or recipient account |
| `SendProperties.OtherIndexRejected` | programs/private-message/src/lib.rs:29-31 | A claim for any other index is rejected, provided the derivation separates the two indexes. Examples: a stale index 0 on a second send, or index 1 on a fresh inbox |
| `SendProperties.MessageSeedsInjective` | programs/private-message/src/lib.rs:30 | Different message indexes give different derivation seeds for the same recipient |
| `SendProperties.RunIndexesConsecutively` | programs/private-message/src/lib.rs:14-54 | Over any sequence of sends, each with its own downstream answer, the accepted ones are checked against consecutive indexes. The final counter is the last accepted index, a fresh inbox ends bound to its recipient, and with no accepted send nothing changes |
| `SendProperties.FreshInboxIndexesFromZero` | programs/private-message/src/lib.rs:14-54 | Starting from a zeroed account, with any downstream answers, the n-th accepted message (counting from 0) is checked against index n, and the counter ends at (accepted count) - 1 |
| `SendProperties.RetryAfterDownstreamFailure` | programs/private-message/src/lib.rs:29-53 | A send the downstream program rejects leaves its index unused: the identical request, retried when the downstream program accepts it, is checked against the same index and accepted |

## Left out

- `PrivateMessage.Inbox.Send`, `PrivateMessage.SendSpec`, `PrivateMessage.Touch`, `PrivateMessage.ValidationIndex`, `SendProperties.Run`, `SendProperties.LaterSendIncrements`, `SendProperties.SendEvolvesInbox`, `SendProperties.WrongClaimCountRejected`, `SendProperties.SendAcceptedIff`, `SendProperties.ForwardedPayloadIsCallers`, `SendProperties.OtherIndexRejected`, `SendProperties.RunIndexesConsecutively`, `SendProperties.FreshInboxIndexesFromZero`, `SendProperties.RetryAfterDownstreamFailure`: the increment at lib.rs:21 is a plain `u64` `+= 1`. These members require room for it (`Headroom > 0`, so no initialised inbox at `u64::MAX`; for a run, no more requests than the room left) instead of modelling either a wrap or an overflow panic. Which of the two happens depends on build settings that are not part of this model.
- `Pubkey::find_program_address`: hashing, the bump search and the off-curve test are not modelled. The derivation is a parameter.
- The cross-program invocation `light_system_program::cpi::invoke` (lib.rs:37-51): the callee is a parameter returning success or an error code. Its own checks (address uniqueness, Merkle trees) are not modelled. Account infos are reduced to their keys.
- Borsh serialisation of `InstructionDataInvoke` (lib.rs:34-35): the forwarded payload is the `InvokeData` value itself, not its bytes. The fields `send` does not read are one opaque byte string, and so are the tree indices of a claim.
- Anchor account handling (lib.rs:84-108): `init_if_needed`, rent, `space = INBOX_SIZE`, the inbox PDA seeds `["inbox", recipient]` and the signer check. A new account enters as `ZeroedInbox()`, and the bump Anchor found is a field of `SendContext`. Since `Send` modifies only its own `Inbox`, no other recipient's inbox can change.
- `INBOX_SIZE` (lib.rs:65) depends on Rust's `size_of` layout, and the model does not capture it.
- `MessageData` and the ECDH/AES-GCM scheme described above it (lib.rs:73-82): `send` never uses them.
- The `initialize` entry point of programs/zk-private-message/src/lib.rs: it does nothing and returns `Ok(())`.
- Concurrency between transactions: the ledger runs conflicting writes to one account one at a time.
