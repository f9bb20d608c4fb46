# Circuit Agent Cloud: model and proofs

Circuit Agent Cloud runs trading agents on other people's machines and keeps their wallets on a signer of
its own. Its safety rests on a handful of small, intricate pieces of code, and this project models those and
proves what they are there for:

- the **signer**: sessions with an epoch and a token (the *fence*), the order of the policy checks, and what
  a trade charges to the day, with live trades overlapping at the swap (`Fence`, `Signer`, `IntentRoute`,
  `Spending`, `DayBooks`, `Spacing`);
- the **control plane**: placement, the failover sweep with its watchdog, heartbeat reconciliation, and the
  hand-out of sessions to nodes (`Proto`, `ControlPlane`, `Placement`), and both servers as one state machine
  over whole runs (`Cloud`, `AtMostOne`, `Rotation`, `Operations`);
- the **byte formats**: base58, the Solana length prefix, the transaction parser and in-place signer, and the
  hand-built transfer (`Digits`, `Base58`, `ShortVec`, `SolanaTx`, `Withdraw`);
- the **canonical encodings and guards**: canonical JSON in its three copies, the signed request texts, the
  two bounded nonce stores, the verified-intent gate and the trades it lets through, and the private-address
  check on IPv4 and IPv6 texts (`Text`, `Canonical`, `CanonicalCopies`, `RequestAuth`, `VerifiedIntent`, `Choice`,
  `EvidenceOnce`, `VerifiedTrading`, `Netguard`, `Spellings`).

Code that the source writes as loops and updated records is written here as methods and classes, each proved
equal to a specification function; the properties are lemmas about those functions. What a caller sees of
each operation is also stated without naming such a function (`IntentRoute`, `Operations`, and in
`EvidenceOnce`, `VerifiedIntent` and `RequestAuth`), so code and specification cannot share a mistake unseen.

Ed25519, SHA-256 and random tokens are function parameters, with injectivity or freshness as stated
hypotheses; the clock is an input. SOL amounts are integer lamports, so the comparison slack of `1e-9` SOL is
one lamport.

`dafny verify dfyconfig.toml` checks everything.

## Where the code says something else than its documentation or comments

Each entry names the input or the family of inputs that shows it, and the exact condition where one is known.

- README.md:55 and SECURITY.md:126-131 say that at most one instance may trade an agent. After a *refused*
  session request the control plane hands the new node the old node's session
  (control-plane/server.js:83-91), and both are accepted: `AtMostOne.RefusedOpenBreaksTheFence` is a run of
  seven steps. `AtMostOne.AtMostOneIff` gives the exact condition, on the states before the heartbeats.
- The daily limit is read before a live swap and charged after it. Overlapping swaps can each be granted the
  whole rest of the day: `Spending.DailyCapLive` bounds the excess, `Spending.LiveBoundReached` reaches the bound
  for every live policy, and `Spending.DailyLimitIff` says when the limit does hold.
- A five-byte length prefix can read as a negative number and move the parser's cursor before the message;
  the overrun check looks upwards only (signer/submit.js:141). `SolanaTx.NegativeLengthAccepted` is the
  transaction, `SolanaTx.AnyBytes` the exact condition on all bytes.
- The sandbox table is a plain object (lib/proto.js:24, 42-43), so a sandbox named like an inherited property
  ("constructor") compares as NaN and passes every floor: `Proto.InheritedNamePasses`, with the exact condition
  in `Proto.SatisfiesIff`.
- The comment at lib/verified-intent.js:10-11 wants its serializer to agree byte for byte with the SDK's, as the
  other two do. It keeps undefined fields, which they drop (test/canonical-conformance.test.mjs:31 records it):
  `CanonicalCopies.CopiesAgreeIff`.
- An inference receipt backs *any* required input with its verdict, so a quote and a receipt, both genuine,
  let the submitter choose between trades: `Choice.ReceiptBreaksIt`. `Choice.ChoiceIff` says for every rule when
  evidence leaves a choice.
- The cooldown is counted from the last trade charged, so live swaps that overlap can begin together and both
  land: `Spacing.BothLand`, and `Spacing.LiveCooldownIff` for when it is kept.
- A signed request passes twice exactly in the last millisecond of its window: `RequestAuth.ReplayIff`.
- The comment at signer/server.js:109-110 takes a reused nonce for a replay to be refused. The store forgets nonces after five
  minutes, so an item can be used again exactly if it is not too old by then, whether because of a longer age
  limit, a stamp in the future or a stamp that is no number: `EvidenceOnce.PassesTwiceIff`.

## Model

| member | source | states |
|---|---|---|
| Base58.EncodeLoop | lib/ed25519.js:24-41 | the encoder's nested carry loops produce the closed form `Encode`: leading '1's for leading zero bytes, then the canonical base-58 digits of the value |
| Base58.DecodeLoop | lib/ed25519.js:43-61 | the decoder's loops produce `Decode`, or refuse at the first character outside the alphabet |
| Base58.MultiplyAdd | lib/ed25519.js:30-36 | one byte's turn, updating the digit list in place, is multiply-and-carry on little-endian digits, the leftover carry pushed on top |
| Base58.CarryStaysSmall | lib/ed25519.js:31-36 | the carry stays below the multiplier (256 encoding, 58 decoding), so the 32-bit truncations of the source lose nothing |
| Base58.LetterIsAlphabet | lib/ed25519.js:22 | the digit table is the source's alphabet string, 58 letters |
| Base58.DecodeEncode | lib/ed25519.js:24-61 | decoding an encoded byte string gives it back, for every byte string |
| Base58.EncodeDecode | lib/ed25519.js:24-61 | decoding succeeds exactly on strings over the alphabet, and encoding the result gives the string back |
| Base58.EncodeInjective | lib/ed25519.js:24-41 | equal addresses mean equal bytes |
| Base58.EncodeDigitCount | lib/ed25519.js:24-41 | after its leading '1's an address has exactly d digits, 58^(d-1) <= value < 58^d |
| Base58.AddressLength | lib/ed25519.js:24-41 | a 32-byte key has an address of 32 to 44 characters |
| Digits.MulAddOf | lib/ed25519.js:30-36 | multiply-and-carry on the digits of n gives the digits of n times the factor plus the new digit |
| Digits.MulAddCanonical | lib/ed25519.js:30-36 | multiply-and-carry keeps a digit list canonical: digits below the base, top digit not zero |
| Digits.CanonicalIsOf | lib/ed25519.js:28-36 | a number has one canonical digit list |
| ShortVec.ReadCompactU16 | signer/submit.js:60-69 | the reader, on any bytes and any offset, including undefined bytes and 32-bit wrap-around |
| ShortVec.CompactU16 | signer/withdraw.js:22-27 | the writer's loop gives the seven-bit groups, least significant first, continuation bit on all but the last |
| ShortVec.ReadInverts | signer/submit.js:60-69 | reading at the offset of a written prefix gives n and the offset past it, for every n < 2^31, whatever stands around it |
| ShortVec.ReadSame | signer/submit.js:60-69 | what is read depends only on the bytes walked over |
| SolanaTx.FindSignerIndex | signer/submit.js:73-86 | the loop returns the last index of the key among the static keys, -1 if none, and the signer count byte |
| SolanaTx.InspectTransaction | signer/submit.js:122-150 | the inspection loops equal the specification `Inspect` on every byte string |
| SolanaTx.WalkLoop | signer/submit.js:135-148 | the instruction loop equals the recursive walk: refusals and the report in order |
| SolanaTx.InspectWellFormed | signer/submit.js:122-150 | for every well-formed legacy or v0 message behind any signature array, the inspection gives the verdict read off the message itself |
| SolanaTx.AcceptsIff | signer/submit.js:132-148 | it accepts exactly if the key's first static index is below the signer count and every in-range program is allowlisted; the report is the ordered list of out-of-range indices |
| SolanaTx.AnyBytes | signer/submit.js:122-150 | on any bytes, accepted or refused: every judged index is a byte of the message exactly when no instruction the walk goes on from leaves the cursor below zero with another one read there; an accepted report holds an undefined entry exactly when one does |
| SolanaTx.JudgedInside | signer/submit.js:137-148 | so it is inside as long as no length prefix reads as negative |
| SolanaTx.NegativeLengthAccepted | signer/submit.js:139-147 | a whole transaction, for any keys, signature and blockhash, whose one length of -2^31 is walked outside the message: it is accepted with an undefined entry in its report |
| SolanaTx.SignSerializedTx | signer/submit.js:89-100 | the buffer after signing in place, and the three refusals, which leave it alone |
| SolanaTx.SlotInBounds | signer/submit.js:91-98 | the slot lies between the count and the message, inside the buffer |
| SolanaTx.SigningFillsSlot | signer/submit.js:89-100 | for every well-formed message behind any signature array, signing puts the signature of the message into the entry of the agent's last static key and changes nothing else, exactly if that key is a required signer with an entry; else it is refused |
| SolanaTx.SigningFrame | signer/submit.js:98 | only the signer's own 64 bytes change; message, count, every inspection and every slot stay as they were |
| SolanaTx.SigningCommutes | signer/submit.js:89-100 | two required signers signing in either order give the same bytes |
| SolanaTx.SameKeyIff | signer/submit.js:81-83 | inspection (first match on addresses) and signing (last match on bytes) pick the same key exactly when it stands at most once among the keys |
| SolanaTx.InspectedIsSigned | signer/submit.js:89-98 | with distinct keys, what passed inspection is signed in the inspected signer's slot, or there is no slot for it |
| Withdraw.BuildSolTransferMessage | signer/withdraw.js:34-45 | the concatenated buffers are the wire form of the transfer message; the errors for a bad blockhash, length or amount |
| Withdraw.WriteLE | signer/withdraw.js:40-41 | an integer is written at an offset in little-endian order and nothing else changes |
| Withdraw.SignTransferTx | signer/withdraw.js:48-52 | one signature slot, the signature, the message |
| Withdraw.TransferPassesInspection | signer/submit.js:122-150 | a built and signed transfer, with the System program on the allowlist, passes inspection with signer 0, fee payer `from` and nothing unresolved; without, it is refused for that program |
| Withdraw.TransferRoundTrip | signer/withdraw.js:34-45 | reading the message back gives payer, destination, program, 64-bit amount and blockhash |
| Withdraw.TransferInjective | signer/withdraw.js:34-45 | no two transfers share a message |
| Withdraw.SystemAddress | signer/withdraw.js:15 | the System program's id is 32 zero bytes and its address 32 ones |
| Proto.SatisfiesIff | lib/proto.js:33-51 | the code decides by the design's rule (runtime floor, owner's wish, attestation for untrusted bundles) exactly if no name looked up is one that JavaScript objects inherit, an inherited wish being harmless where the floor is met |
| Proto.InheritedNamePasses | lib/proto.js:42-44 | a node whose sandbox is "constructor" is accepted for a bundle that wants a microVM |
| Placement.SweepContains | control-plane/server.js:211-239 | a sweep moves a bundle only to a live node that contains it as the design demands, inherited names aside |
| ControlPlane.PickNode | control-plane/server.js:211-218 | none exactly if no live, suitable, unblocked node has a slot; else such a node with the most free slots |
| ControlPlane.PickNodeIsFirst | control-plane/server.js:213-217 | of equally free nodes the earliest registered is picked |
| ControlPlane.Server.Schedule | control-plane/server.js:220-239 | the agent's new record: left alone, placed, or pending, with its failures forgotten when no untried node is open |
| ControlPlane.Server.Sweep | control-plane/server.js:242-273 | the three passes over nodes and agents, each placement seeing the ones before it |
| ControlPlane.Server.Heartbeat | control-plane/server.js:314-361 | the node's record, every agent's record and the orders sent back; an unknown node is refused and nothing changes |
| ControlPlane.Server.ReconcileOne | control-plane/server.js:330-352 | one agent's turn: the four cases, the free slots counted down, the session opened or kept |
| ControlPlane.Server.StopOrphans | control-plane/server.js:354-357 | stop orders for what runs without being assigned here |
| ControlPlane.Server.Register | control-plane/server.js:295-311 | the merged node record: a re-registration keeps the trust mark |
| ControlPlane.Server.StartAgent | control-plane/server.js:434-443 | wanted running, a stopped or failed agent pending again, then placed |
| ControlPlane.Server.StopAgent | control-plane/server.js:445-453 | not wanted; the placement stays |
| ControlPlane.Server.CreateAgent | control-plane/server.js:380-432 | a new, stopped, unplaced agent, refused if the id is taken |
| ControlPlane.Server.DeleteAgent | control-plane/server.js:455-469 | the agent is gone and no other record changes |
| ControlPlane.Server.TrustNode | control-plane/server.js:527-536 | only the node's trust mark changes; an unknown node is refused |
| Placement.SweepSafeAndWorkConserving | control-plane/server.js:242-273 | after one sweep each node holds at most the larger of its budget and what it held; every new placement is on a live, suitable node; no wanted agent is without a node while such a node has a slot |
| Placement.HeartbeatRestoresBudget | control-plane/server.js:323-358 | after a heartbeat the node holds at most the larger of its budget and what it runs, starts fit its free slots, no id is ordered twice, a reported id is stopped exactly when it is not a wanted agent assigned here, and no such agent loses its place |
| Operations.SweptNodes | control-plane/server.js:242-256 | a node is live after a sweep exactly if it was and was heard within the timeout; nothing else of it changes |
| Operations.NoneStuck | control-plane/server.js:259-267 | after a sweep no wanted, scheduled agent has waited on its node longer than the watchdog allows |
| Operations.LeftAlone | control-plane/server.js:242-273 | an agent placed no longer ago than that, on a node that is not taken down, is unchanged |
| Operations.Bounced | control-plane/server.js:259-267 | one that waited longer is an attempt on and off its node, which it remembers unless nothing else was open; it is pending or placed at this moment |
| Operations.NoneOnSilent | control-plane/server.js:242-273 | no wanted agent is left on a node that went down in the sweep |
| Operations.HeartbeatStarts | control-plane/server.js:323-345 | exactly as many starts are ordered as wanted agents of the node are missing from its report, up to its free slots |
| Operations.StartsCarry | control-plane/server.js:74-100 | every start is for a wanted agent of the node that it does not report, with the session it has there, else the newly opened one, else its old one |
| Operations.BeatNode | control-plane/server.js:314-321 | the node is live and heard at this time; the other nodes are as they were |
| Operations.BeatRecord | control-plane/server.js:330-352 | what one heartbeat makes of each agent: reported, missing, unwanted, or another node's |
| Operations.StopMeans | control-plane/server.js:445-453 | the agent is not wanted, keeps its place, session and failures; no other record changes |
| Operations.StopIsOrdered | control-plane/server.js:314-361 | so the next heartbeat that reports it answers with a stop and no start |
| Operations.StartMeans | control-plane/server.js:434-443 | the agent is wanted and on its live node, or placed now on a live, suitable node, or pending because none has a slot; no other record changes |
| Operations.CreateMeans | control-plane/server.js:380-432 | a new agent is unwanted, unplaced and without session or failures; a taken id creates none |
| Operations.DeleteMeans | control-plane/server.js:455-469 | exactly the records of other agents are left |
| Operations.RegisterMeans | control-plane/server.js:295-311 | the node is live, heard now, as declared; a new one is not trusted, an old one as it was; the others stay |
| Operations.TrustIff | control-plane/server.js:527-536 | in every run a node is trusted exactly if its administrator's last word since it registered says so |
| Fence.TableMatchesHistory | signer/server.js:256-278 | the session table read off the history of provisions, opens and deletes |
| Fence.AuthorizedIffLatest | signer/server.js:270-278 | an intent passes the fence exactly with the token and number of the latest session since the agent was created |
| Fence.EpochsIncrease | signer/server.js:260-262 | each session opened between creation and deletion has a higher epoch than all before |
| Fence.SupersededNeverAgain | signer/server.js:256-278 | a session once replaced or deleted is never accepted again, even when epochs restart at 1 |
| Fence.TokensAreScoped | signer/server.js:268-278 | a token opened for one agent is never accepted for another |
| Signer.AgentRecord.BeginIntent | signer/server.js:270-345 | the route up to its first wait: every refusal in order, day rollover, paper accounting, or a live ticket with the limits as they stand |
| Signer.AgentRecord.Settle | signer/server.js:346-361 | after the swap: charged by its SOL value if within the ticket's caps, else untouched |
| Signer.Charge | signer/submit.js:182-190 | what a swap charges is positive and at most one lamport over each cap |
| Signer.Server.Provision | signer/server.js:148-180 | a fresh account, or only limits and rule of the one that is there; its session stays |
| Signer.Server.OpenSession | signer/server.js:256-266 | the session table takes one step of the fence; no other field of any account changes |
| Signer.Server.Delete | signer/server.js:369-390 | the account is gone, the others stay |
| Signer.Server.BeginIntent | signer/server.js:270-345 | only the named agent's account changes |
| Signer.Server.FinishIntent | signer/server.js:346-361 | the record the intent began with is charged; after a delete no account in the table is, not even a re-created one |
| Signer.PastTheFenceIff | signer/server.js:276-278 | the intent route's own check is the authorisation of `Fence` |
| IntentRoute.SignedIff | signer/server.js:270-340 | a paper trade of a size is signed exactly for the current session, with its evidence passed where required, an allowed action and token, the cooldown over, the size above zero, within the trade limit and within what is left of the day |
| IntentRoute.LiveIff | signer/server.js:270-345 | an intent goes to the swap exactly if it is admitted, a buy is within both limits and a sell has something to sell; it takes along the trade limit and the rest of the day |
| IntentRoute.AccountAfter | signer/server.js:310-340 | a new day starts at nothing, a paper trade adds its size and sets the clock, nothing else changes, and nothing at all for a request that is not admitted |
| IntentRoute.RefusalIsTrue | signer/server.js:270-324 | every refusal gives a reason that holds |
| IntentRoute.BuyCharge | signer/submit.js:182-190 | a buy is charged the lamports that go in, or the asked size if the order has none, if that is within both caps and a lamport; what comes out plays no part |
| IntentRoute.SellCharge | signer/submit.js:182-190 | a sell is charged the lamports that come out, under the same caps; what goes in plays no part |
| IntentRoute.AfterSwap | signer/server.js:346-361 | the charge is added and the clock set to the intent's time; a failed swap changes nothing |
| IntentRoute.PolicyOf | lib/proto.js:56-78 | limits from an owner's fields: live trading and unverified intents only where asked for, the daily limit never below the trade limit |
| IntentRoute.ProvisionedAgain | signer/server.js:148-180 | new limits and rules are in force where sent; session, day, charges and clock stay |
| IntentRoute.ProvisionedFirst | signer/server.js:148-180 | a new agent trades on paper unless told otherwise, without a session or charges |
| Spending.DailyCapLive | signer/server.js:302-362 | with at most k live intents in flight: today's charges plus what is still granted <= maxDaily + (k-1) maxNotional + one lamport per intent, over every interleaving |
| Spending.DailyCapOneAtATime | signer/server.js:302-362 | one at a time: maxDaily plus one lamport per intent |
| Spending.DailyCapPaper | signer/server.js:310-340 | on paper the account's total for the day never exceeds maxDaily |
| DayBooks.DailyLimitOnPaper | signer/server.js:310-340 | over every run whose days do not go back, and for every day, the sizes of the trades signed on paper that day sum to at most maxDaily; the sum is taken from the answers, on the first day with what the account brought along |
| DayBooks.LiveBooks | signer/server.js:310-355 | the day's total of a live account is the sum of the charges that landed since the day was opened |
| Spacing.PaperCooldown | signer/server.js:308-336 | paper trades are at least the cooldown apart, over every run |
| Spacing.LiveCooldownIff | signer/server.js:308-354 | a live policy that lets anything be traded and has a cooldown keeps it between trades charged one after the other, in every run with at most k in flight, exactly if k <= 1 |
| Spacing.BothLand | signer/server.js:308-354 | the run that shows it: two intents begun in one millisecond, both charged |
| Signer.LimitsAgree | control-plane/server.js:405-421 | the limits the control plane keeps and sends are the ones the signer enforces, and sending them again changes nothing |
| Spending.LiveBoundReached | signer/server.js:345-354 | every live policy, for every k, has a run that reaches the bound of `DailyCapLive` exactly |
| Spending.DailyLimitIff | signer/server.js:302-362 | a live policy that lets anything be traded keeps maxDaily plus one lamport per intent, in every run with at most k in flight, exactly if k <= 1 |
| AtMostOne.AtMostOneIff | control-plane/server.js:74-100 | in every state of a run at most one node holds an accepted credential for an agent, exactly when no heartbeat of the run finds, before it, an agent it will start whose session request is refused while the signer still accepts another node's session of it |
| AtMostOne.SuccessfulOpensExclude | control-plane/server.js:314-361 | so it holds in every run in which session requests succeed: failures, bounces, moves away and back, deletes and re-creations included |
| AtMostOne.RefusedOpenBreaksTheFence | control-plane/server.js:83-91 | a run of seven steps with one refused request after which two nodes hold the accepted session |
| Rotation.RunRotates | control-plane/server.js:226-267 | in every reachable state no agent is on a node that failed it, and those are distinct registered nodes |
| Rotation.StepMemory | control-plane/server.js:226-237 | exactly what each step makes of an agent's failures: none left if its node reports it running, or if it is being placed and every suitable live node with a free slot, in the table as it is at its turn, has failed it; else the old ones and the node it was bounced off |
| Rotation.MemoryIsBounces | control-plane/server.js:259-267 | through steps that clear nothing, told from the states before them, the remembered failures grow by exactly the bounces, in order |
| Rotation.BouncesRotate | control-plane/server.js:259-267 | between clears an agent is bounced off pairwise different nodes, at most as often as there are nodes |
| Canonical.StableIff | lib/owner-auth.js:18-23 | two values have the same canonical text exactly when they mean the same JSON: key order never matters, and nothing else is lost |
| Canonical.Decodes | lib/owner-auth.js:18-23 | a parser for sections 4, 5 and 7 of RFC 8259 recovers from the text what the value means |
| Canonical.KeysAscend | lib/owner-auth.js:21-22 | the fields of an object stand in the text in strictly ascending code-unit order of their names, and exactly the defined ones do |
| Canonical.ParseStable | lib/node-auth.js:12-17 | the parser reads a canonical text back, followed by anything but a digit, as the value with its keys sorted |
| Canonical.StringRoundTrip | lib/owner-auth.js:19 | every string of 16-bit units, lone surrogates included, is read back from its escaped form |
| Canonical.SortedUnique | lib/owner-auth.js:21 | the sorted order of a set of keys is unique |
| CanonicalCopies.CopiesAgreeIff | lib/verified-intent.js:12-23 | the third copy writes the same text exactly for values without undefined in them |
| CanonicalCopies.KeepIff | lib/verified-intent.js:12-23 | so for such payloads the signed bytes fix the meaning |
| RequestAuth.MessageIff | lib/owner-auth.js:26-29 | signed texts are equal exactly for the same kind of signer, upper-cased method, path, body meaning, time and nonce (one line each for method and path; no hash collision) |
| RequestAuth.CaseIgnored | lib/owner-auth.js:26-29 | two methods count as one exactly if they differ in the case of letters only; the text has upper case |
| RequestAuth.DomainsApart | lib/node-auth.js:19-22 | an owner's signed text is never a node's, whatever is in them |
| RequestAuth.NonceStore.Has | lib/owner-auth.js:73 | whether an unexpired entry is there; an expired one is forgotten |
| RequestAuth.NonceStore.Add | lib/owner-auth.js:74-77 | the entry is set; above 5000 the loop leaves exactly the unexpired ones |
| RequestAuth.Verify | lib/owner-auth.js:47-67 | the checks in order, and the nonce spent before the signature is looked at |
| RequestAuth.AnswerIs | lib/owner-auth.js:47-78 | every answer in every run from an empty store, told from the calls alone: accepted, as its own signer, exactly if complete, timely, rightly signed and with no earlier complete, timely call of the same nonce whose window is still open |
| RequestAuth.ForgettingIsSafe | lib/owner-auth.js:71-78 | over every run of a clock that never goes back, the bounded store answers as one that never forgets |
| RequestAuth.AcceptedTwice | lib/node-auth.js:47-64 | two acceptances of one nonce: the later is not before the earlier's expiry |
| RequestAuth.ReplayOnlyAtTheEdge | lib/owner-auth.js:47-78 | the same nonce and time accepted twice: the later at exactly time + age limit |
| RequestAuth.ReplayIff | lib/owner-auth.js:47-78 | repeated with its nonce unused in between, an accepted request is accepted again exactly at that millisecond |
| VerifiedIntent.VerifyEvidence | lib/verified-intent.js:48-82 | the three kinds of evidence, every refusal in order; the nonce is stored exactly on success |
| EvidenceOnce.PassesIff | lib/verified-intent.js:48-82 | an item passes exactly if its key is accepted for its class (its notary is accepted), its signature holds (the zkTLS check, or no proof demanded), its stamp is not older than the limit and its nonce is not stored |
| EvidenceOnce.CodeIsTrue | lib/verified-intent.js:48-82 | every other code names a fault the item has |
| EvidenceOnce.PassLeaves | signer/server.js:109-116 | a pass stores the nonce with its time and forgets nothing of the last five minutes |
| VerifiedIntent.Nonces.Add | signer/server.js:112-115 | the nonce is set; above 5000 the loop leaves exactly the entries of the last five minutes |
| VerifiedIntent.EvidenceBacks | lib/verified-intent.js:84-91 | whether some item vouches for this value under this key |
| VerifiedIntent.EvaluateRule | lib/verified-intent.js:105-114 | the trade the rule makes of the inputs, none if a condition fails |
| VerifiedIntent.DecisionGate | lib/verified-intent.js:123-136 | the gate's code and the store after it: items in order up to the first that fails |
| VerifiedIntent.ConditionMeans | lib/verified-intent.js:93-103 | each operator on two values: numbers are ordered as numbers, nothing else is, NaN equals nothing |
| VerifiedIntent.TradeMeans | lib/verified-intent.js:105-114 | a rule makes a trade exactly if all conditions hold; its token and size are its own, else the named input's, else none |
| VerifiedIntent.SameTradeMeans | lib/verified-intent.js:116-117 | when two intents count as the same trade |
| VerifiedIntent.GateIff | lib/verified-intent.js:123-136 | a submission passes exactly if it names the committed rule, its evidence passes, some item tells each required input as claimed, and the rule makes the trade of the claimed inputs |
| VerifiedIntent.TradeIsRuleOnEvidence | lib/verified-intent.js:123-136 | with every input the rule looks at required and single-valued in the evidence, a trade can pass exactly when the evidence vouches for every required input and the rule makes that trade of the values read off the evidence |
| VerifiedIntent.EvidenceDeterminesTrade | lib/verified-intent.js:123-136 | two passing submissions of the same evidence make the same trade, whatever inputs they claim |
| VerifiedIntent.QuotesAreSingleValued | lib/verified-intent.js:84-91 | signed quotes and zkTLS claims are single-valued for a key exactly when those that mention it agree |
| Choice.ChoiceIff | lib/verified-intent.js:105-136 | for every rule that requires what it looks at, with any conditions, token and size: evidence that passes lets two different trades through exactly when it has a usable value for every required input, and two for one that name different tokens or sizes |
| Choice.ReceiptBreaksIt | lib/verified-intent.js:84-91 | a genuine, fresh quote and inference receipt with another verdict do: two submissions of them pass with different trades |
| EvidenceOnce.FiveMinutesApart | signer/server.js:109-116 | two passes of one nonce lie more than five minutes apart, in every run |
| VerifiedTrading.EveryTradeJustified | signer/server.js:270-362 | every trade ever charged to an agent that requires verified intents goes back to a request of its own: every item of its evidence was authentic, fresh when it was read and of a nonce not in the store, the required inputs were told by it, and the rule's conditions held and made exactly that intent, in every interleaving of intents, landings and other agents' evidence |
| VerifiedTrading.TradesShareNoEvidence | signer/server.js:270-362 | no item of evidence pays for two of these trades, as far as it is too old five minutes after its use |
| EvidenceOnce.NeverTwice | lib/verified-intent.js:48-82 | an item that is too old five minutes and a millisecond after its first pass never passes again, in any run |
| EvidenceOnce.EvidenceUsedOnce | signer/server.js:287-300 | over whole requests: such an item gets no second trade through, nor does it count twice in one request |
| EvidenceOnce.PassesTwiceIff | signer/server.js:109-116 | an item that passes at t1 can pass again in some run, given 5000 others to fill the store, if and only if it is not too old at t1 plus five minutes and a millisecond: told from its stamp and the age limit alone |
| EvidenceOnce.SweptPassesAgain | signer/server.js:114 | that run: the others push the store into a sweep and the item passes again |
| Netguard.ToLongDotted | lib/netguard.js:11 | four octets printed and read back are the 32-bit number |
| Netguard.CidrIsInterval | lib/netguard.js:12-15 | shift-and-mask membership is membership of an interval of integers, for every text, base and prefix length |
| Netguard.PrivateV4Iff | lib/netguard.js:17-34 | on every text the check says whether the number read lies in the listed ranges |
| Netguard.PrivateGroupsIff | lib/netguard.js:63-79 | the refused groups as intervals; an embedded IPv4 address gets its own verdict, `::` and `::1` included |
| Spellings.HextetOfGroup | lib/netguard.js:58 | `parseInt` reads a group of one to four hexadecimal digits for what it is |
| Spellings.WithDotted | lib/netguard.js:40-45 | a dotted tail becomes the two groups it stands for, in every position |
| Spellings.ExpandSpelling | lib/netguard.js:38-61 | every spelling of an address under section 2.2 of RFC 4291, either case, bracketed or with a zone, expands to its eight groups |
| Spellings.OneVerdict | lib/netguard.js:63-79 | two spellings of one address get one verdict |
| Spellings.EmbeddedVerdict | lib/netguard.js:63-79 | an embedded IPv4 address, however spelled, gets the verdict of the IPv4 check on the address itself |

## Left out

- Signer.AgentRecord.BeginIntent: floating point. Amounts are integer lamports; a fractional lamport and the
  rounding of sums are not modelled.
- Cloud.Apply: every handler is one step. Other handlers interleaving with a heartbeat at its session request
  (control-plane/server.js:78-79) and the two-server create and delete half done are not modelled; a lost
  reply and a refused request are.
- Canonical.Stable: numbers are integers printed in decimal, so fractions, exponents, NaN and -0 are not
  modelled; nor are `toJSON` methods, symbols and getters.
- RequestAuth.Upper: ASCII only; the Unicode part of `toUpperCase` is not modelled. The time header is the
  number it stands for; that `Number` reads several texts as one number is not. UTF-8 encoding of the signed
  text is not modelled either (it merges lone surrogates).
- RequestAuth.Verify: always with a nonce store; without one the freshness check alone remains.
- VerifiedIntent.Backs: data and claims are objects with own keys. Keys found on `Object.prototype`, and the
  exception when `data` is no object, are not modelled. Objects are references compared by identity, and
  `String`/`Number` of texts and objects are function parameters.
- VerifiedIntent.VerifyEvidence: always with a replay store, as the signer calls it. An item whose nonce is an
  object is a new nonce each time it is parsed, so the single-use results are about nonces that are the same value.
- EvidenceOnce.PassesTwiceIff: takes 5000 further acceptable items as given.
- VerifiedTrading.EveryTradeJustified: the agent's rule, keys and policy stay as they are over the run, and how the
  policy checks read a body's intent is a function parameter.
- Netguard.Number: octets in decimal digits; `+"0x7f"`, exponents, signs, blanks and values beyond 2^53 are not
  modelled. `Netguard.Lower` is ASCII only.
- Netguard.ExpandV6: all texts, but what is proved about its result is for proper spellings; the choice between
  the IPv4 and IPv6 check for a host (`net.isIP`) and the resolution of names are not modelled.
- Withdraw.BuildMessage: decoding of the transaction's base64 and the RPC calls around a withdrawal
  (signer/withdraw.js:54 and below) are not modelled.
- SolanaTx.Inspect: the buffer is what base64 decoding gave.
- Signer.Charge: the mint checks on the order (signer/submit.js:178-180), slippage, the order's transport, and
  confirmation are not modelled; the order's amounts are arbitrary inputs.
- ControlPlane.Server.CreateAgent: names, owners, bundle bindings, rate limits and provisioning errors are not
  modelled. ControlPlane.Server.Register leaves out the node's key and capabilities other than the sandbox.
- Signer.Server.BeginIntent: the table of agents is a plain object, so an id such as "constructor" finds an inherited
  property there (signer/server.js:155, 271); ids are agents or nothing here.
- HTTP, route guards, ownership checks, rate limiting, logs and their ring, metrics, `publicView`.
- Persistence and recovery, key sealing, wallet export, bundle storage and its garbage collection.
- Ed25519, SHA-256, AES-GCM and randomness: parameters with stated hypotheses.
- `normalizeVerified` and the shape of rules: rules are well formed here.
- node-host, egress proxy, bundles, agentd: process and network plumbing.
