# Verified model of the Payable billing engine

Payable keeps most of its hard logic in code that does no input or output itself. This project models that
logic in Dafny and proves what it promises, one module per component.

* **Canonical text and the audit chain** (`Unicode`, `Utf8`, `Texts`, `JsonText`, `Canonical`, `CanonicalReader`,
  `RequestHash`, `AuditChain`). `canonicalize` is modelled as a printer and given a reader that undoes it. From
  that follows which values share a text, then which requests share a hash, then that the last hash of an audit
  chain fixes the whole chain. SHA-256 and HMAC are arbitrary functions; where a theorem needs it they are
  assumed injective on byte sequences (HMAC, in one theorem, on key and bytes together), and only there. That the text reaches them without loss (it is always
  well-formed UTF-16, so `TextEncoder` replaces nothing) is proved.
* **Status reconciliation** (`Transitions`, `PathOrder`, `ShortestPath`, `SubscriptionStates`). The breadth-first
  search is a loop over a queue, a visited set and a predecessor map, for any finite transition map. It is proved to
  return not just a shortest path but the first of them, in the order in which the map lists its arcs.
* **Refunds** (`PaymentStates`, `RefundLedger`, `RefundProtocol`, `RefundHistory`, `RefundActions`,
  `RefundRefinement`). `RefundLedger` holds the stored rows and the transactions on them. `RefundProtocol` is a state
  machine in which any number of provider refunds and local refunds race, one database access or provider call per
  step, with the read and the compare-and-swap of a transaction as separate steps; the refund row is written together
  with the swap. `RefundHistory` follows each call through a run, from the amount it was started with over the answer
  it received to the row it left. `RefundActions` has the retry loops as methods on stored rows, with any transactions
  of other calls committed between a read and its swap; `RefundRefinement` shows that the loops of the state machine
  do the same.
* **Money** (`Doubles`, `Money`, `Allocation`). Half-away-from-zero division in its number and bigint forms,
  percentages, and `allocate`. The number forms run in any arithmetic that rounds as IEEE 754 doubles do.
* **Price migrations** (`MigrationStates`, `MigrationProtocol`). The check on a compare-and-swap, the step it and a
  reconciliation perform on the stored row, and whole runs of both.
* **Idempotency keys** (`PercentEncoding`, `IdempotencyKeys`). Percent-encoding (section 2.1 of RFC 3986) joined
  with `:`. `toUpperCase` is an arbitrary function `upper`, so "currency case" means: equal after `upper`.
* **Small stateful parts** (`RateLimiter`, `Locks`). The fixed-window limiter with pruning and the lock with expiry
  and tokens; clock readings and tokens are parameters.
* **Traversals and scans** (`Redaction`, `LookupKeys`, `ItemAlignment`). Redaction over any graph of objects, with
  the test on sensitive keys as an arbitrary predicate; the UTF-16 scan; two comparisons of item lists.

Exceptions are `Result` or `Option` values, or a boolean outcome. JavaScript strings are sequences of 16-bit code
units where their encoding matters, and plain strings where they are only compared.

## Where the code does less than one might expect

* **Migration tokens.** The typed input that resolves a reconciliation as applied carries a token of its own, and
  the repository writes it without comparing it with the expected one. So another token can take the owner's place
  (`MigrationProtocol.ResolutionCanReplaceToken`), and after that the worker of a failed attempt can complete the next
  one (`StaleWorkerCanComplete`). `RunKeepsDisciplineIff` and `RunRejectsStaleWorkersIff` say exactly which runs are
  free of either. A token brought with an outcome that is not pending renewal breaks ownership but lets no worker in,
  because applied rows never change. An empty token is written too, but reading the row back then fails, which undoes
  the write inside a transaction (`TransactionKeepsTokenOk`). The callers in
  `src/application/services/subscriptions/subscription-price-migration-reconciliation.ts` always pass the token on.
* **Log contexts that lead back to themselves.** The context object itself is not recorded as seen, so it is expanded
  twice exactly when it leads back to itself without passing a sensitive key (`Redaction.ExpandedTwiceIffCyclic`);
  every other object is expanded at most once.
* **Unknown migration outcomes.** A resolution that observes one is accepted only on a row that holds no observation,
  and no step ever clears one, so a row records at most one in its life (`MigrationProtocol.ObservationStays`).
* **Paths from incomplete.** A subscription stored as incomplete that the provider reports as past due, unpaid or
  paused is moved there by way of a trial, because `start_trial` is the first arc of its status
  (`SubscriptionStates.EventsAreThose`).
* **Item comparison.** `sameSubscriptionItems` needs distinct ids in the preview, and only there. With distinct
  current items alone a preview that lists one item twice passes (`ItemAlignment.RepeatedPreviewItem`);
  `SameNeedsDistinctPreview` gives the exact condition.

## Model

| member | source | states |
|---|---|---|
| Canonical.FailsIffTooDeep | src/support/hash/request-hash.ts:3-35 | `canonicalize` succeeds exactly on values of serializable kinds none of whose nodes lies deeper than 100, where what `toJSON` returns lies one level below its object |
| CanonicalReader.ReadCanonical | src/support/hash/request-hash.ts:3-35 | a reader recovers from a canonical text, followed by any text that cannot continue a number, the meaning of the value and that following text |
| CanonicalReader.SameMeaningSameText | src/support/hash/request-hash.ts:3-35 | values that differ only in key order, undefined fields and undefined for null print alike: sorting leaves one order |
| CanonicalReader.CanonicalTextIsUnambiguous | src/support/hash/request-hash.ts:3-35 | two values print to the same text if and only if they mean the same |
| CanonicalReader.EntriesInKeyOrder | src/support/hash/request-hash.ts:31-33 | of any two printed entries the earlier has the smaller key: at the first code unit where they differ its unit is smaller, or it ends there |
| CanonicalReader.ObjectText | src/support/hash/request-hash.ts:31-34 | an object prints as its defined members in that order, each once, as literal, colon and text, between braces and commas |
| CanonicalReader.ArrayText | src/support/hash/request-hash.ts:21-23 | an array prints as the texts of its items in order, between brackets and commas |
| CanonicalReader.TwoKeys | src/support/hash/request-hash.ts:31-34 | the whole text of any object with two one-letter keys and one-digit numbers, given in the wrong order |
| JsonText.ReadEscaped | src/support/hash/request-hash.ts:19-34 | reading a string literal (section 7 of RFC 8259) undoes the escaping that `JSON.stringify` does, lone surrogates included |
| JsonText.EscapesAreJson | src/support/hash/request-hash.ts:19-34 | the seven two-character escapes, the four-digit escapes of other control characters, in lower case, and everything else as it is |
| JsonText.ReadDecimal | src/support/hash/request-hash.ts:9-19 | reading an integer undoes printing it |
| JsonText.QuoteWellFormed | src/support/hash/request-hash.ts:19-34 | a string literal is well-formed UTF-16 whatever the string |
| RequestHash.CanonicalWellFormed | src/support/hash/request-hash.ts:3-35 | every canonical text is well-formed UTF-16 |
| Utf8.TextEncodeInjective | src/support/hash/request-hash.ts:37-43 | encoding well-formed texts to bytes never makes two of them equal |
| Utf8.BytesAreShortest | src/support/hash/request-hash.ts:37-43 | lead and tail bytes lie in the ranges of section 3 of RFC 3629 and the form is the shortest |
| RequestHash.HashDeterminesMeaning | src/support/hash/request-hash.ts:37-43 | under an injective digest two requests share a hash if and only if they mean the same |
| AuditChain.EntryHashIs | src/infrastructure/audit/audit-chain.ts:32-41 | the hash is the HMAC under a non-empty key, otherwise SHA-256, of the UTF-8 bytes of the canonical text of the payload |
| AuditChain.OneDigestDecides | src/infrastructure/audit/audit-chain.ts:40 | with a key SHA-256 plays no part in the hash, without one, or with an empty one, HMAC plays none |
| AuditChain.LinkBindsTheKey | src/infrastructure/audit/audit-chain.ts:40-60 | if HMAC is injective in key and bytes together, links valid under two non-empty keys with one hash have equal keys |
| AuditChain.PayloadHoldsHead | src/infrastructure/audit/audit-chain.ts:7-20 | the payload means a record that holds previous hash, sequence, time, tenant, correlation and actor under their names |
| AuditChain.PayloadHoldsBody | src/infrastructure/audit/audit-chain.ts:21-29 | and action, resource, the states before and after, metadata and origin under theirs |
| AuditChain.ValidLinksAgree | src/infrastructure/audit/audit-chain.ts:7-60 | two valid links with one hash have the same previous hash, sequence, time and fields |
| AuditChain.TamperEvident | src/infrastructure/audit/audit-chain.ts:7-60 | chains valid from a null previous hash that end in the same hash have the same length and agree on every hashed field of every entry, whatever sequence numbers they store |
| AuditChain.AppendKeepsValid | src/infrastructure/audit/audit-chain.ts:32-60 | an entry hashed as `auditEntryHash` does and linked to the last hash extends a valid chain |
| AuditChain.VerifyChain | src/infrastructure/storage/prisma/repositories/prisma-audit-logs.repository.ts:88-147 | page by page, up to 1000 rows beyond the last sequence at a time, answers true exactly when every link of the rows beyond sequence 0 is valid from a null previous hash on, and otherwise what the check of the first broken link answered |
| Transitions.LookupExact | src/domain/states/transition.ts:7-26 | `applyTransition` goes exactly where the map leads |
| ShortestPath.ReconstructPath | src/domain/states/subscription-state-machine.ts:131-147 | walks back to the start: every predecessor is there, and the events are those of the recorded way, lead to the target and are as many as its distance |
| ShortestPath.VisitSuccessors | src/domain/states/subscription-state-machine.ts:112-126 | one pass over the arcs of a node ends with the first shortest path or keeps the search invariant and the order of discovery, and makes progress |
| ShortestPath.ShortestEventPath | src/domain/states/subscription-state-machine.ts:100-129 | for any map: null exactly when no events lead to the target; otherwise the events lead there, no shorter list does, and of the lists as short every other one first leaves it by a later arc |
| SubscriptionStates.ReconcileSubscriptionStatus | src/domain/states/subscription-state-machine.ts:149-158 | reports the target exactly if it is the current status, or one of active, past_due, unpaid, paused and canceled while the current one is not final, or trialing or incomplete_expired from incomplete; the events are those of a table; otherwise the current status with none |
| SubscriptionStates.ReachableIff | src/domain/states/subscription-state-machine.ts:14-38 | which statuses can become which, over event lists of any length |
| SubscriptionStates.EventsAreThose | src/domain/states/subscription-state-machine.ts:14-38 | the first of the shortest event lists between any two statuses is the one of the table: none, one event, or two by way of a trial or of active |
| SubscriptionStates.EventLeadsToTarget | src/domain/states/subscription-state-machine.ts:14-38 | each event leads to the one status it names, exactly from the statuses in which it can happen |
| SubscriptionStates.TerminalNeverMoves | src/domain/states/subscription-state-machine.ts:14-38 | no event leads out of canceled or incomplete_expired |
| SubscriptionStates.SubscriptionStateMachine.To | src/domain/states/subscription-state-machine.ts:51-54 | moves to the status that the event names exactly from the statuses in which it can happen, or fails and stays |
| PaymentStates.PaymentStateMachine.To | src/domain/states/payment-state-machine.ts:80-83 | moves to the status that the event names exactly from the statuses in which it can happen, or fails and stays |
| PaymentStates.EventLeadsToTarget | src/domain/states/payment-state-machine.ts:15-28 | each payment event leads to the one status it names, exactly from the statuses in which it can happen |
| PaymentStates.NextStatus | src/domain/states/payment-state-machine.ts:15-28 | what the machine does on refund and partial refund: allowed exactly from succeeded and partially_refunded |
| RefundLedger.ApplyKeepsConsistent | src/application/actions/refunds/refund-payment.action.ts:182-273 | each reserving, recording, releasing or finalising transaction keeps the refunded amount equal to the pending and succeeded refunds, within the payment, and the status fitting it |
| RefundLedger.ReleaseForgets | src/application/actions/refunds/release-refund-reservation.ts:35-44 | a release leaves the payment row that the other refunds alone determine |
| RefundLedger.ReservePlanMeans | src/application/actions/refunds/refund-payment.action.ts:227-240 | a reservation takes the amount named, or all that remains; ExceedsRemaining exactly if nothing remains or more is named |
| RefundLedger.RecordPlanMeans | src/application/builders/local-refund-actions.ts:67-106 | a local refund records the amount named, or all that remains, exactly if no check stands in the way and that is positive and remains; which error otherwise |
| RefundProtocol.StepKeepsInv | src/application/actions/refunds/refund-payment.action.ts:134-273 | every step of every call keeps the invariant: ledger equation, one owner per unfinished refund, and what the provider was asked is backed by a row |
| RefundProtocol.RefundsNeverExceedPayment | src/application/actions/refunds/refund-payment.action.ts:134-273 | in every interleaving the refunded amount is the sum of pending and succeeded refunds, lies in 0..amount, and decides the status |
| RefundProtocol.ProviderNeverOverAsked | src/application/actions/refunds/refund-payment.action.ts:141-181 | at every state what was asked of the provider and not refused by it totals at most the payment amount |
| RefundProtocol.ClampNeverBites | src/application/actions/refunds/release-refund-reservation.ts:35-36 | whenever a release has read the payment, the clamp at zero changes nothing |
| RefundProtocol.ReleasedAsIfNeverReserved | src/application/actions/refunds/release-refund-reservation.ts:35-44 | in every interleaving a successful release leaves the payment as if the refund had never been reserved |
| RefundProtocol.CallsTerminate | src/application/actions/refunds/refund-payment.action.ts:205-220 | each step of a call that is not done lowers a bound on its steps, so every loop ends |
| RefundProtocol.SwapIsAtomic | src/application/actions/refunds/refund-payment.action.ts:241-258 | a swap that succeeds on the refunded amount alone, even one that went away and came back, does what an atomic transaction at that moment would do |
| RefundProtocol.ProtocolRefinesTransactions | src/application/actions/refunds/refund-payment.action.ts:134-273 | every run of separate steps ends where a run of atomic, allowed transactions ends |
| RefundProtocol.RunKeepsInv | src/application/actions/refunds/assert-refund-response.ts:12-40 | the invariant holds over every run, mismatched answers that leave a refund pending included; which answer leaves what is in `RefundHistory.AnswerDecides` |
| RefundHistory.AnswerDecides | src/application/actions/refunds/refund-payment.action.ts:141-203 | over every schedule, a finished call that received an answer left its own row, of the amount asked: succeeded exactly on a matching answer that says so, failed or canceled exactly on a throw or a matching refusal unless three releases were lost, otherwise pending |
| RefundHistory.RowsAreAsAskedFor | src/application/actions/refunds/refund-payment.action.ts:205-258 | over every schedule, every refund row has the amount that the call which made it was started with |
| RefundHistory.EligibleCallReachesProvider | src/application/actions/refunds/refund-payment.action.ts:50-111 | a call alone on a refundable payment without pending refunds asks the provider for the amount it was started with, or for all that remains |
| RefundHistory.IneligibleCallStops | src/application/actions/refunds/refund-payment.action.ts:50-94 | any other call alone stops without asking and changes nothing |
| RefundActions.RefundStore.TryReserve | src/application/actions/refunds/refund-payment.action.ts:222-273 | one attempt: payment not found, rejected, lost to another writer, or payment and refund row written together; a success took the amount named or all that remained, and ExceedsRemaining comes exactly if that is too much or nothing remains |
| RefundActions.RefundStore.Reserve | src/application/actions/refunds/refund-payment.action.ts:205-220 | the loop does what at most three attempts do, and a success names the new pending refund, of the amount asked for |
| RefundActions.RefundStore.TryRecord | src/application/builders/local-refund-actions.ts:62-136 | one attempt of a local refund, with all its checks in order; a success recorded the amount named or all that remained |
| RefundActions.RefundStore.Persist | src/application/builders/local-refund-actions.ts:50-60 | the loop does what at most three attempts do, and a success returns the amount asked for |
| RefundActions.RefundStore.ReleaseReservation | src/application/actions/refunds/release-refund-reservation.ts:28-55 | if the payment is gone only the refund is marked; otherwise the amount is given back and the refund marked, or after three lost swaps the refund stays pending and the call fails |
| RefundActions.AttemptIsAtomic | src/application/actions/refunds/refund-payment.action.ts:227-273 | an attempt that is not lost acts as one atomic transaction at the moment of its swap |
| RefundActions.RetryMeans | src/application/actions/refunds/release-refund-reservation.ts:28-48 | a loop reports a conflict only after losing every window, each of which moved the refunded amount; otherwise it lost the windows before and then either committed once, atomically, or was refused on the rows as they were |
| RefundActions.RetryTakesWhatWasAsked | src/application/builders/local-refund-actions.ts:50-136 | whichever of the attempts succeeds, whatever came between, it took the amount the caller named |
| RefundActions.RetryKeepsConsistent | src/application/builders/local-refund-actions.ts:50-136 | the ledger equation holds after a loop, whatever allowed transactions came between |
| RefundRefinement.PassIsAttempt | src/application/actions/refunds/refund-payment.action.ts:222-273 | one attempt, read and swap as separate steps among the steps of others, does what `TryReserve` and its like do with the others' transactions in between |
| RefundRefinement.LoopIsRetry | src/application/actions/refunds/refund-payment.action.ts:205-220 | each of the three loops, run step by step in the protocol, does what `Retry` says, and leaves its call where it should be |
| Money.DivideMinorNearest | src/domain/value-objects/money.ts:24-35 | on doubles, for every safe amount, the quotient is the nearest integer, halves away from zero |
| Money.DivideMinorOdd | src/domain/value-objects/money.ts:24-35 | negating either argument negates the quotient |
| Money.DivideMinorBounded | src/domain/value-objects/money.ts:87-92 | the quotient is never larger than the amount, so `divide` never leaves the safe range |
| Money.DivideFormsAgree | src/domain/value-objects/minor-units.ts:3-20 | the bigint form gives what the number form gives on every safe amount, errors included |
| Doubles.QuotientTruncates | src/domain/value-objects/money.ts:31 | truncating the rounded double quotient of a safe integer gives the integer quotient |
| Doubles.RoundedTotal | src/domain/value-objects/money.ts:113 | a total of non-negative integers added up in doubles is exact, or it and the exact total are unsafe |
| Allocation.CutOffIsExact | src/domain/value-objects/money.ts:118-121 | a share cut off in doubles is the integer one, whether or not the total of the ratios is exact |
| Allocation.FloorsAddUpExactly | src/domain/value-objects/money.ts:128 | the cut-off shares add up in doubles without rounding |
| Money.PercentageNearest | src/domain/value-objects/money.ts:94-104 | a percentage is the nearest integer to the exact share, and fails exactly when that is unsafe |
| Money.PercentageIdentity | src/domain/value-objects/money.ts:94-104 | 10000 basis points are the whole amount |
| Allocation.RemainderSmall | src/domain/value-objects/money.ts:128-136 | the remainder has the sign of the amount and is below the number of positive ratios, so the cursor never wraps |
| Allocation.AllocateConserves | src/domain/value-objects/money.ts:106-138 | the shares add up to the amount |
| Allocation.ShareIsFair | src/domain/value-objects/money.ts:106-138 | a zero ratio gets nothing and every share is within one unit of exact |
| Allocation.FirstPositivesGetExtra | src/domain/value-objects/money.ts:118-136 | without an extra unit a share is the most that lies within the exact proportion, with one the least beyond it; whoever has an extra unit, so has every positive ratio before |
| Allocation.ShareNegates | src/domain/value-objects/money.ts:106-138 | negating the amount negates every share |
| Allocation.ShareBounded | src/domain/value-objects/money.ts:137 | no share is larger than the amount, so the final `Money.of` never throws |
| Allocation.Allocate | src/domain/value-objects/money.ts:106-138 | the loops, run in doubles, compute the truncated shares plus one unit of the sign for exactly the first positive ratios; which error it gives, for each of the four, and when |
| Allocation.HandOutRemainder | src/domain/value-objects/money.ts:128-137 | the loop over the remainder ends with exactly those shares |
| MigrationStates.TransitionHasEvent | src/domain/states/subscription-price-migration-state-machine.ts:18-43 | a status change the check allows is one move of the machine |
| MigrationStates.MigrationStateMachine.To | src/domain/states/subscription-price-migration-state-machine.ts:56-59 | moves to the status that the event names exactly from the statuses in which it can happen, or fails and stays |
| MigrationStates.EventLeadsToTarget | src/domain/states/subscription-price-migration-state-machine.ts:18-43 | each migration event leads to the one status it names, exactly from the statuses in which it can happen |
| MigrationProtocol.ValidSwapsRefineTheContract | src/infrastructure/storage/subscription-price-migration-cas.ts:5-55 | the check accepts exactly the declared shapes with non-empty tokens, settling on the held token, and failures where they belong |
| MigrationProtocol.StepIsMove | src/domain/contracts/subscription-price-migration-repository.contract.ts:94-208 | an accepted step is a move of the machine; another unknown outcome, or a rejected step, keeps the status |
| MigrationProtocol.RunIsSimulated | src/domain/contracts/subscription-price-migration-repository.contract.ts:94-208 | every run of swaps and resolutions is a run of the machine with one event for each moving step |
| MigrationProtocol.TerminalStatuses | src/infrastructure/storage/subscription-price-migration-cas.ts:8 | applied and cancelled rows never change, and a swap never changes one that requires reconciliation |
| MigrationProtocol.ResolutionAcceptedIff | src/domain/contracts/subscription-price-migration-repository.contract.ts:158-208 | when each of the four resolutions is accepted |
| MigrationProtocol.ResolutionStores | src/domain/contracts/subscription-price-migration-repository.contract.ts:158-208 | what each accepted resolution stores, failure code and message included |
| MigrationProtocol.ResolutionsFailAsNotApplied | src/domain/contracts/subscription-price-migration-repository.contract.ts:180-208 | no resolution fails a row with the unknown outcome, and each that newly requires reconciliation stores it |
| MigrationProtocol.ObservationStays | src/infrastructure/storage/prisma/repositories/prisma-subscription-price-migrations.repository.ts:118-235 | once observed, an unknown outcome stays on the row whatever follows, and no other is accepted |
| MigrationProtocol.StepKeepsFailureOk | src/infrastructure/storage/subscription-price-migration-cas.ts:9-27 | failed and reconciliation_required always carry a canonical failure; scheduled, executing, pending_renewal and applied none |
| MigrationProtocol.StepKeepsTokenOkIff | src/infrastructure/storage/prisma/repositories/prisma-subscription-price-migrations.repository.ts:118-235 | null tokens when idle, non-empty ones otherwise: kept by the write of a step exactly when it is not an accepted resolution as applied with an empty token |
| MigrationProtocol.TransactionKeepsTokenOk | src/infrastructure/storage/mappers/subscription-price-migration-lifecycle.mapper.ts:25-35 | reading the row back in the same call throws exactly after that write, so a step in a transaction always keeps the discipline |
| MigrationProtocol.StepKeepsTokenIff | src/infrastructure/storage/prisma/repositories/prisma-subscription-price-migrations.repository.ts:118-235 | during an attempt the token changes exactly when an accepted resolution as applied brings another |
| MigrationProtocol.ResolutionCanReplaceToken | src/infrastructure/storage/prisma/repositories/prisma-subscription-price-migrations.repository.ts:173-227 | for all owners and all other non-empty tokens, a typed input replaces the owner's token by the other, in a row that reads back |
| MigrationProtocol.RunKeepsClaimed | src/domain/contracts/subscription-price-migration-repository.contract.ts:94-208 | over every run without condition: failures are recorded where they belong, and an attempt that executes or awaits reconciliation is the one started last and holds its token |
| MigrationProtocol.RunKeepsDisciplineIff | src/domain/contracts/subscription-price-migration-repository.contract.ts:94-208 | tokens are where they belong, and a held token is that of the attempt started last, all through a run if and only if its accepted resolutions as applied pass the token on |
| MigrationProtocol.StaleWorkersRejectedIff | src/infrastructure/storage/subscription-price-migration-cas.ts:36-54 | with distinct tokens, a worker of an earlier attempt can change the row exactly when that awaits renewal under its token |
| MigrationProtocol.RunRejectsStaleWorkersIff | src/domain/contracts/subscription-price-migration-repository.contract.ts:94-208 | with distinct tokens, workers of earlier attempts are rejected all through a run if and only if no accepted resolution as applied, pending renewal, brings the token of an earlier attempt |
| MigrationProtocol.PassingTokensOnRejectsStaleWorkers | src/application/services/subscriptions/subscription-price-migration-reconciliation.ts:130-148 | so they are in every run whose accepted resolutions pass the token on, as the callers make them |
| MigrationProtocol.StaleWorkerCanComplete | src/infrastructure/storage/prisma/repositories/prisma-subscription-price-migrations.repository.ts:173-227 | a run of accepted inputs after which the worker of a failed attempt completes the next |
| PercentEncoding.UnescapeEscapes | src/domain/value-objects/idempotency-key.ts:62-64 | decoding a segment gives back the UTF-8 bytes of the text |
| PercentEncoding.EncodeComponentInjective | src/domain/value-objects/idempotency-key.ts:62-64 | different texts have different segments |
| PercentEncoding.LeftAloneIff | src/domain/value-objects/idempotency-key.ts:62-64 | letters, digits and nine marks are the only characters left as they are |
| PercentEncoding.SplitJoin | src/domain/value-objects/idempotency-key.ts:101-121 | splitting at the colons undoes joining |
| IdempotencyKeys.AmountSegmentInjective | src/domain/value-objects/idempotency-key.ts:70-77 | different safe amounts have different segments |
| IdempotencyKeys.BuildMeans | src/domain/value-objects/idempotency-key.ts:88-99 | `of` trims nothing off a built key, which fails only for an unusable part or for its length, and which splits into its family and parts |
| IdempotencyKeys.BuildSucceedsIff | src/domain/value-objects/idempotency-key.ts:88-99 | a key is built exactly if every part is usable and the whole has at most 512 units |
| IdempotencyKeys.FirstErrorDecides | src/domain/value-objects/idempotency-key.ts:101-121 | otherwise the first unusable part gives the error |
| IdempotencyKeys.ChargeKeySpells | src/domain/value-objects/idempotency-key.ts:106-110 | split at the colons and decoded, a charge key reads back as its seven parts in order |
| IdempotencyKeys.CheckoutKeySpells | src/domain/value-objects/idempotency-key.ts:101-104 | the same of a checkout key, with the reference last if there is one |
| IdempotencyKeys.RefundKeySpells | src/domain/value-objects/idempotency-key.ts:118-121 | the same of a refund key |
| IdempotencyKeys.ChargeKeysInjective | src/domain/value-objects/idempotency-key.ts:106-110 | two charges share a key exactly when equal in every part, a missing tenant read as empty and currencies in upper case |
| IdempotencyKeys.CheckoutKeysInjective | src/domain/value-objects/idempotency-key.ts:101-104 | the same of checkouts, an empty reference read as absent |
| IdempotencyKeys.RefundKeysInjective | src/domain/value-objects/idempotency-key.ts:118-121 | the same of refunds |
| IdempotencyKeys.FamiliesNeverCollide | src/domain/value-objects/idempotency-key.ts:101-121 | a charge, a checkout and a refund never share a key |
| RateLimiter.MutationBoundary.Consume | src/presentation/shared/subscription-migration-boundary.ts:50-62 | accepts or rejects and updates the windows as the step function says |
| RateLimiter.MutationBoundary.Prune | src/presentation/shared/subscription-migration-boundary.ts:64-69 | above 1024 windows removes exactly those already closed |
| RateLimiter.PruningIsInvisible | src/presentation/shared/subscription-migration-boundary.ts:50-69 | with a clock that never goes back the decisions are those of a limiter that never prunes |
| RateLimiter.ForgetsAbove1024 | src/presentation/shared/subscription-migration-boundary.ts:31-69 | after opening a window the limiter holds at most 1024 or open ones only, and below that it forgets nothing |
| RateLimiter.AtMostTwiceMax | src/presentation/shared/subscription-migration-boundary.ts:50-62 | at most 2·max - 1 requests of a key are accepted in any half-open interval of length windowMs |
| RateLimiter.RejectedOnlyWhenFull | src/presentation/shared/subscription-migration-boundary.ts:58-60 | a request is rejected only after max accepted ones of its key within windowMs |
| Locks.MemoryLockDriver.Acquire | src/infrastructure/locks/memory-lock-driver.ts:15-21 | takes the lock exactly when no unexpired entry holds it |
| Locks.MemoryLockDriver.Release | src/infrastructure/locks/memory-lock-driver.ts:23-28 | removes the entry only if it carries the releaser's token |
| Locks.MemoryLockDriver.WithLock | src/infrastructure/locks/memory-lock-driver.ts:32-42 | returns or rethrows what the work did, or fails on a held lock, and leaves no entry of its own token behind |
| Locks.LockIsKept | src/infrastructure/locks/memory-lock-driver.ts:15-30 | a lock stays its holder's until that holder releases it or it expires, whatever others call |
| Locks.HoldersFollowEachOther | src/infrastructure/locks/memory-lock-driver.ts:15-30 | of two locks on a key the later is taken after the release or the expiry of the earlier |
| Locks.OneLiveHolder | src/infrastructure/locks/memory-lock-driver.ts:15-30 | a key never has two live holders |
| Locks.StaleReleaseIsHarmless | src/infrastructure/locks/memory-lock-driver.ts:23-28 | the late release of an earlier holder does not end a later lock |
| Locks.RefusedIffHeld | src/infrastructure/locks/memory-lock-driver.ts:15-19 | an acquire is refused exactly when the key has a live holder |
| Redaction.Redactor.Value | src/support/logger/console-logger.ts:7-27 | the traversal with its shared seen set terminates on any graph and computes the copy function |
| Redaction.Redactor.Slots | src/support/logger/console-logger.ts:13-23 | so does its loop over elements or entries |
| Redaction.Redactor.Context | src/support/logger/console-logger.ts:29-36 | so does `redactContext` |
| Redaction.ValueExpandsOnce | src/support/logger/console-logger.ts:7-27 | the objects copied are exactly those newly seen, each once |
| Redaction.ContextExpandsExactly | src/support/logger/console-logger.ts:29-36 | how often each object is expanded: once if the context leads to it without passing a sensitive key, and the context itself once more |
| Redaction.ExpandedTwiceIffCyclic | src/support/logger/console-logger.ts:29-36 | every object is expanded at most once, except that the context is expanded twice if and only if it leads back to itself |
| Redaction.SelfContainedContext | src/support/logger/console-logger.ts:29-36 | an example: a context that contains itself |
| Redaction.ContextIsCleanAndFaithful | src/support/logger/console-logger.ts:7-36 | nothing sensitive remains at any depth, and everything else says what the given graph holds: redacted are exactly the sensitive slots, and a circular mark stands exactly where the object was copied before in the order of the traversal |
| Redaction.ContextIsUnique | src/support/logger/console-logger.ts:7-36 | no other context is faithful in that sense |
| Redaction.ContextCopiesAll | src/support/logger/console-logger.ts:7-36 | every object that the context leads to without passing a sensitive key is copied |
| Redaction.ContextTreeIsMasked | src/support/logger/console-logger.ts:7-36 | on a tree nothing changes but the sensitive slots |
| LookupKeys.IsWellFormedUnicode | src/domain/validation/price-lookup-key.ts:53-73 | the scan accepts exactly the UTF-16 encodings of scalar values |
| LookupKeys.ValidateLookupKey | src/domain/validation/price-lookup-key.ts:6-20 | accepts exactly the non-blank encodings of 1 to 200 scalar values, and gives each of its four errors exactly where the code does |
| LookupKeys.ValidateLookupKeys | src/domain/validation/price-lookup-key.ts:22-34 | accepts exactly lists of at most ten acceptable keys, returns them, and otherwise gives the error of the first that is not |
| Unicode.WellFormedIffEncoded | src/domain/validation/price-lookup-key.ts:53-73 | what the scan looks for (surrogates in pairs, section 2.1 of RFC 2781) is being an encoding |
| ItemAlignment.AssertAligned | src/domain/internal/subscription-price-migration-execution-evidence.ts:68-88 | passes exactly when ids and quantities of the two lists are permutations of each other and no id repeats |
| ItemAlignment.AlignedIffChecked | src/domain/internal/subscription-price-migration-execution-evidence.ts:73-87 | the checks cover every canonical item, by pigeonhole |
| ItemAlignment.SameIffPermutation | src/application/actions/subscriptions/apply-subscription-change.action.ts:282-298 | with distinct ids in the preview, true exactly of permutations |
| ItemAlignment.SameNeedsDistinctPreview | src/application/actions/subscriptions/apply-subscription-change.action.ts:282-298 | with distinct current ids, lists that compare as the same are permutations exactly when no preview id repeats |
| ItemAlignment.RepeatedPreviewItem | src/application/actions/subscriptions/apply-subscription-change.action.ts:282-298 | a preview listing one of two items twice compares as the same |

## Left out

- Allocation.Allocate: fractional ratios are not modelled, nor a total of ratios that overflows to infinity, which cuts every share off to zero as any unsafe total does.
- AuditChain.VerifyChain: the rows are in the order of their sequences, which a unique index keeps apart; rows without a sequence are not in the chain. The code does not check that sequences are contiguous.
- Locks.MemoryLockDriver.WithLock: what others do while the work runs is a list of their calls; that tokens are unique is required, as random UUIDs provide it.
- RefundActions.RefundStore.ReleaseReservation: other calls leave the refund being released alone, which `RefundProtocol.StepKeepsInv` proves of all calls (one owner per refund).
- RefundProtocol.RefundsNeverExceedPayment: a payment starts succeeded with nothing refunded and is never deleted; other writers of its status (redirect reconciliation), later provider reconciliation of pending refunds, and the idempotency layer around a refund are outside. Authorization, the provider's capability and the currency check of a provider refund, all before anything is reserved, are not modelled.
- RefundActions.RefundStore.TryReserve: whether the payment is there does not change during a call.
- `canonicalize`: numbers are safe integers; fractional, larger and non-finite ones and negative zero are not modelled. A function, a symbol, a Map and a Set are one unserializable kind, and `toJSON` is given by what it returns. Keys are compared by code unit, as sorting does.
- `verifyChain` in the Knex repository, `backfillChain` and the creation of entries: the same links, in other storage code.
- `isValidSubscriptionPriceMigrationCas`: a null token where a string is declared, on which the code would throw, is a rejected swap. Timestamps, attempt counts and the active-subscription key of a migration row are not modelled, nor the answer to an exact replay of an observation.
- `forSubscription`, `forSubscriptionOperation`, `forWebhook`, `forCustomer` and `forBillingPortal`: the first two share a prefix and are not claimed disjoint; the others would add only easy members.
- `enforceRate`: how tenant and actor make up the key of a window.
- `isSensitiveKey`: any predicate. Objects with an own `__proto__` key and holes in arrays are not modelled.
- `redactValue` on arrays and on objects has one loop in the model, with a flag for the test on keys. A copied node records which node it copies, which the logged object does not.
- `shortestEventPath`, `allocate` and `verifyChain`: an inner loop of each is a method of its own.
- `sameSubscriptionItems` of ill-typed items, `validateTransferLookupKey`, `normalizeEvidence`: type guards.
- `Money.add`, `subtract`, `multiply` and formatting, the invoice and refund state machines: only easy members.
- Hashing and signing themselves, storage drivers, HTTP and framework adapters, provider adapters, configuration.
