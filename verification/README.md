# AccessGrid sync, verified

A Dafny model of the sync between a physical access control system (PACS) and AccessGrid (AG),
with the Millennium Ultra card ledger underneath it, and proofs of what its authors promise of it.

## What is modelled

**The ledger.** `Export` and `Pacs` hold the data. `Ledger` is the `pacs_cards` table: the recorded
cards of each pass, each with its slot, its recorded Active box and the change it waits for.
`CardChanges`, `WriteBack` and `Flush` say what switching, offering, retiring and flushing make of
it; `Reading` says what one read of a cardholder makes of it, `ReadingStability` proves that reading
settles, and `ReadingRecords` says what a read comes to without the walk over the slots. `CardholderReads`, `CycleFlush` and `Adapter` are the adapter itself: classes and
loops that write the table as they go, proved against those functions. `LedgerRules` proves what
every run of the adapter keeps. `ImportFile` and `CardImport` build the import.

**The cycle.** `Tracking` is the tracking table, `Snapshot` and `AgCards` one cycle's view of
AccessGrid, `Decisions` what each phase decides. `Passes` keeps the books between the passes issued
and the table. `Asks` says what each phase asks and tells, and why; `Retirement` what phase 3
releases in the PACS; `Issuing` what phases 1 and 5 attempt and leave of each row; `PhaseRecords` and
`Traces` what the other phases and a whole cycle did; `PassCalls`, `PassLedger` and `WholeCycle` what of that
concerns one credential, and where the code breaks a promise. `PhaseEffects` and `IssueEffects` say what the
phases come to over a whole table in terms of the rows, the credentials and the states listed alone.
`Phases` runs phases 1 to 5 and any number of cycles against an AccessGrid and a PACS that answer as
they please, and is proved to do just that. `ControlLoop` closes the loop of phase 1's refresh,
phase 2, the install gate, the status loop and the flush for one Seos pass, and proves it has no
livelock; `LoopRefinement` proves that a completed cycle of `Phases`, with the adapter, is a cycle of that
loop for every resting pass, and `CycleRuns` that runs of whole cycles, from read to applied import, fall
silent. `OneRowCycle` makes up cycles, to show that there are such.

**Beside it.** `Migration` (record ids to Employee IDs), `HtmlForm` (multipart replay), `Rc4`
(CDVI's cipher), `Roster` (Unity paging) and `Lockout` (login throttling).

AccessGrid's and Millennium's answers, the operator's edits, clocks and the order of dictionary
and table listings are nondeterministic or parameters. Dates and instants are integers. None and ""
are told apart where the code tells them apart.

Four assumptions carry the control loop, stated in `ControlLoop.AtRest`, `ControlLoop.Answers` and
`ControlLoop.CycleTo`: the pass is listed; its calls are answered, and an answered suspend or resume
shows on the first card listed and turns up no new identity; an import is applied as sent; and nobody
else acts. `UntakenSuspendRepeats` shows what happens without the second. Phase 1 looks a pass up
without its reference and may read an older issue's card, whose state a call may change: `Lookup`
covers both.

Where the code and its comments differ, the code is followed, and lemmas say where it breaks the promise:

- Phase 2 promises to leave alone a pass whose state changed since it was last known. Phase 1 refreshes
  what is known in the same cycle, so a pass suspended in AccessGrid while its cards are on is resumed:
  `WholeCycle.MovedStateIsCarried` has the exact condition, `LoopRefinement.SuspendedIsResumedByCycle` a
  whole cycle that does it.
- A held pass is to be left exactly as it is by every phase. Phase 3's second pass looks at no hold, and the
  status loop remembers a state it does not translate: `WholeCycle.HeldIsRetired`, `HeldLedgerChanges` and
  `HeldRowStays` have the exact conditions, `HeldIsReleased` a whole cycle.
- A retry checks neither the expiry nor the name nor the activity that phase 1 checks:
  `Asks.RetriedUnchecked` and `RetriedIsDeletedIfExpired`, with `RunOutIsRetried`.
- A login that fails overwrites a lock without looking at it: `Lockout.LocksHoldUndisturbed`, with
  `OverlapBreaksLocks`.

## Model

| member | source | states |
|---|---|---|
| ControlLoop.NoLivelock | src/agsync/sync/phases/phase4_ag_to_local.py:85-231 | From any mix of Active boxes, recorded boxes, leftover pending switches, pass states and remembered states of a pass in force, with nothing unrecorded and nothing deleted on record, every cycle from the third on sends nothing: no suspend or resume, no import; each cycle at an instant of its own |
| CycleRuns.RunFallsSilent | src/agsync/sync/engine.py:438-470 | The same of the sync itself: over any run of completed cycles (the read of the cardholder, the phases, what they tell the adapter, the flush, the import applied to the export, the next read) of a resting pass, from the third on AccessGrid is asked nothing about it and no import carries anything of it |
| CycleRuns.TurnLeads | src/agsync/sync/engine.py:438-470 | One such turn is one cycle of the loop: its calls, its ledger, its boxes and its row are the loop's, and the cards stay in the slots they are recorded in |
| CycleRuns.RunsOfTurnsExist | src/agsync/sync/engine.py:438-470 | From a resting pass of one card that phase 1 finds there are such runs of every length, at whatever instants it is in force, whatever the rest of the ledger and of the export hold |
| CycleRuns.OneCardWorldRests | src/agsync/lib/pacs/millennium_ultra/adapter.py:721-837 | There is such a pass: one card, recorded and on, listed as suspended; its first turn resumes it |
| LoopRefinement.CycleTakesRow | src/agsync/sync/engine.py:438-470 | A completed cycle of the sync leaves the pass's tracking row exactly as a cycle of that loop does |
| LoopRefinement.CycleTakesCalls | src/agsync/sync/engine.py:438-470 | And asks of AccessGrid, about that pass, exactly the loop's suspend or resume: no provision, no deletion, no retry |
| LoopRefinement.CycleTells | src/agsync/sync/phases/phase4_ag_to_local.py:185-231 | And tells the PACS, about that pass, to write back what its cards still back and to switch their boxes where pass and card disagree; before that at most to retire what AccessGrid says is deleted |
| LoopRefinement.CycleTakesLedger | src/agsync/lib/pacs/millennium_ultra/adapter.py:282-565 | Told all that a cycle tells it, and after a flush that confirms what it sent, the adapter's ledger for that pass is the loop's: the write-back, the retirement and the calls for other passes change nothing of it |
| LoopRefinement.CycleExists | src/agsync/sync/engine.py:438-470 | Every resting pass with a reference that phase 1 finds has such a cycle, whatever AccessGrid answers its suspend or resume, if it gets one, so those claims are about something |
| LoopRefinement.SteadyCycle | src/agsync/sync/engine.py:438-470 | And so does one with nothing to suspend or resume, without any call answered |
| LoopRefinement.OneCardIsSteady | src/agsync/sync/phases/phase2_local_to_ag.py:137-225 | A pass whose one card is recorded and on, remembered as active, is such a pass |
| LoopRefinement.RestOwesNothing | src/agsync/sync/phases/phase3_deletions.py:93-136 | At rest the phases the loop leaves out have nothing to do: phase 3 deletes nothing, phase 5 retries nothing, an offer of its cards adds none, a retirement marks none |
| ControlLoop.RunsExist | src/agsync/sync/engine.py:438-470 | From a pass that stays in force there are runs of every length, at whatever instants, so the claim is about something |
| ControlLoop.OneCardRests | src/agsync/lib/pacs/millennium_ultra/adapter.py:282-388 | A pass whose one card is recorded, on or off, is such a state |
| ControlLoop.CycleSettles | src/agsync/lib/pacs/millennium_ultra/adapter.py:282-388 | One cycle leaves every card of a resting pass settled, present and in force, nothing unrecorded and nothing deleted on record, whatever it started from |
| ControlLoop.SecondCycleQuiets | src/agsync/sync/phases/phase2_local_to_ag.py:137-225 | A cycle that starts settled leaves a state in which neither phase 2 nor the install gate has anything left to ask for |
| ControlLoop.FirstCycleRemembers | src/agsync/sync/phases/phase4_ag_to_local.py:201-231 | What phase 4's stale comparison leaves in last_known after a cycle: the listed state, or one that cannot start phase 2 again |
| ControlLoop.QuietChangesNothing | src/agsync/sync/phases/phase4_ag_to_local.py:113-182 | A quiet cycle changes no recorded card, no box and no pass |
| ControlLoop.RestingActiveIsInstalled | src/agsync/sync/phases/phase4_ag_to_local.py:85-103 | Where the loop rests, the credential reads ACTIVE only if the pass is on a device and none of its live cards is suspended |
| ControlLoop.InstalledAndOnRests | src/agsync/sync/phases/phase4_ag_to_local.py:85-182 | Such a pass does rest: installed, unsuspended, its cards on, it reads ACTIVE and nothing is sent |
| ControlLoop.RestingOffIsMeant | src/agsync/lib/pacs/millennium_ultra/adapter.py:282-322 | Where the loop rests with the pass installed, the credential reads off only because an operator switched a card off |
| ControlLoop.UntakenSuspendRepeats | src/agsync/sync/phases/phase2_local_to_ag.py:179-201 | The assumption on suspends is needed: if an answered suspend leaves the first card reading active, an operator's untick has the pass suspended every cycle, forever |
| ControlLoop.OneCardUnticked | src/agsync/sync/phases/phase2_local_to_ag.py:179-201 | There is such a pass, its one card recorded on and switched off |
| ControlLoop.ChangedStateIsLeftAlone | src/agsync/sync/phases/phase2_local_to_ag.py:144-225 | Of a resting pass whose state changed since it was last known: phase 2 taken alone leaves it alone; a cycle does exactly when phase 1 reads another state, or phase 2 had nothing to say anyway (cards on and not listed as suspended; off by our own hand; off and not listed as active) |
| LoopRefinement.ChangedStateInCycle | src/agsync/sync/phases/phase2_local_to_ag.py:144-225 | The same of a completed cycle of the sync, all phases: exactly when AccessGrid is asked nothing about such a pass, and that one whose cards are on is resumed where both phases read suspended |
| LoopRefinement.SuspendedIsResumedByCycle | src/agsync/sync/phases/phase2_local_to_ag.py:144-225 | A completed cycle in which a pass suspended in AccessGrid, its card on, is resumed at once, and nothing else is asked of it |
| WholeCycle.MovedStateIsCarried | src/agsync/sync/phases/phase2_local_to_ag.py:144-225 | Of any row, minted or not, whose state moved since it was last known: the call phase 2 makes in a completed cycle, and exactly when it makes none (cardholder inactive or gone, phase 1 reading another state, AWAITING_INSTALL, ACTIVE and not listed as suspended, or off and listed neither as active nor, for a customer's own card, as created) |
| Asks.RefreshedIsCarried | src/agsync/sync/phases/phase1_provision.py:87-98 | Phase 2 makes no call for the row as it was, and for the row phase 1 refreshed exactly what the credential's status calls for, if phase 1 read the state phase 2 reads |
| ControlLoop.OwnHoldIsNotSuspended | src/agsync/sync/phases/phase2_local_to_ag.py:153-183 | Phase 2 never suspends a pass for cards the sync itself wrote off and nobody touched, whatever the pass's state and history |
| ControlLoop.RestIsReadAsItIs | src/agsync/lib/pacs/millennium_ultra/adapter.py:721-837 | A read of a resting cardholder leaves the ledger alone and reports the very credential the loop reasons about, unheld |
| ControlLoop.LoopCreditsAsFlushed | src/agsync/lib/pacs/millennium_ultra/adapter.py:361-388 | The loop's crediting step is the flush's, under a log that skips nothing |
| ReadingStability.ReadingStabilises | src/agsync/lib/pacs/millennium_ultra/adapter.py:244-265 | However often an unchanged cardholder is read, every read from the third on leaves the ledger unchanged and returns what the second returned |
| ReadingStability.TwoReadsAreCalm | src/agsync/lib/pacs/millennium_ultra/adapter.py:721-837 | Two reads leave a ledger that a further read reproduces, ledger and credentials both |
| ReadingStability.CalmIsLeftAlone | src/agsync/lib/pacs/millennium_ultra/adapter.py:721-837 | A ledger whose cards are recorded where they are, with no trigger card left to record, is read without change |
| ReadingStability.WalkKeeps | src/agsync/lib/pacs/millennium_ultra/adapter.py:757-800 | What the walk over the slots keeps: each card's slot followed, each hold caused by a slot in the way, each new pass resting on an unclaimed trigger card |
| ReadingRecords.ReadAccountsForItself | src/agsync/lib/pacs/millennium_ultra/adapter.py:739-800 | What one read does: cards stay recorded once; a recorded pass keeps its cards; a new one rests on one trigger card, as ReadRecords says; somebody of whom nothing is recorded but a pass is tracked, or whose trigger cards are all recorded on others, reads back empty |
| ReadingRecords.ReadRecords | src/agsync/lib/pacs/millennium_ultra/adapter.py:757-800 | Exactly which trigger cards get a new pass: unrecorded for them, in a slot no record of theirs names but for cards found in earlier slots and cards still to be inserted, with an empty slot where a Seos pair needs one; and with nothing recorded, no pass of theirs tracked and a trigger card up to there recorded on nobody else |
| ReadingRecords.ReadFollows | src/agsync/lib/pacs/millennium_ultra/adapter.py:739-772 | Of a recorded card a read changes its slot, to the trigger slot that holds it, and its dormancy, on while it is there in another format; nothing else |
| ReadingRecords.ReadHolds | src/agsync/lib/pacs/millennium_ultra/adapter.py:739-784 | Held are exactly the passes with a dormant card, and those first in the way of a trigger slot whose card is unrecorded |
| ReadingRecords.StartsFrom | src/agsync/lib/pacs/millennium_ultra/adapter.py:252-264 | What a read starts from: DESFire takes over the cards now in the slots passes were tracked by; Seos drops, when no trigger card is left, the passes none of whose cards remain |
| ReadingRecords.ReadKeeps | src/agsync/lib/pacs/millennium_ultra/adapter.py:808-837 | A read forgets exactly the unheld DESFire passes none of whose cards is there and that do not wait for room |
| ReadingRecords.ReadReports | src/agsync/lib/pacs/millennium_ultra/adapter.py:808-837 | Exactly which passes are reported, and on hold exactly where held |
| ReadingRecords.FirstReadRecords | src/agsync/lib/pacs/millennium_ultra/adapter.py:785-800 | Of somebody with nothing recorded: a pass for exactly the trigger cards there is room for, none while a pass of theirs is tracked, nor before the first such card recorded on nobody else |
| Reading.ReportSays | src/agsync/lib/pacs/millennium_ultra/adapter.py:808-837 | When a pass goes unreported, and what a report says; a DESFire pass mirrors its Millennium card |
| CycleRuns.ReadOnce | src/agsync/lib/pacs/millennium_ultra/adapter.py:811-837 | Where each cardholder's credentials are what a read of them reports, no credential id is there twice, which several claims below assume |
| Reading.FreshIdIsFree | src/agsync/lib/pacs/millennium_ultra/adapter.py:801-804 | The id a new pass is given is not in use by any pass of the cardholder |
| Reading.NameNewPass | src/agsync/lib/pacs/millennium_ultra/adapter.py:801-804 | The naming loop ends, with the first of card, card-2, card-3... not in use |
| CardholderReads.ReadCardholder | src/agsync/lib/pacs/millennium_ultra/adapter.py:244-265 | The adapter's read, which rewrites the ledger as it walks the slots, leaves exactly the ledger and returns exactly the credentials of the functional reading, and touches nobody else's rows |
| CardholderReads.WalkSlot | src/agsync/lib/pacs/millennium_ultra/adapter.py:757-808 | One slot: follow its card's record, put on hold what is recorded there, or record a new pass; the table stays in step with the passes in memory |
| CardholderReads.Prepare | src/agsync/lib/pacs/millennium_ultra/adapter.py:254-265 | Before the slots: adopt slot-named DESFire passes, or forget Seos passes none of whose cards remain |
| CardholderReads.ReportAll | src/agsync/lib/pacs/millennium_ultra/adapter.py:811-837 | The credentials reported in id order, and the DESFire passes whose card is gone forgotten |
| SeosStatus.StatusCharacterised | src/agsync/lib/pacs/millennium_ultra/adapter.py:903-944 | Exactly when a Seos credential reads SUSPENDED (a written card missing, off without our having recorded it off, or all on with a future start), AWAITING_INSTALL and ACTIVE, said of the cards and boxes |
| SeosStatus.ValidityIs | src/agsync/lib/pacs/millennium_ultra/adapter.py:898-902 | A pass starts with the last of its written, present cards to start, and ends with the first to end; without a date where none of them has one |
| SeosStatus.StatusIgnoresOrder | src/agsync/lib/pacs/millennium_ultra/adapter.py:903-944 | The status, and whether the pass has run out, do not depend on the order of the ledger |
| SeosStatus.ScanCards | src/agsync/lib/pacs/millennium_ultra/adapter.py:903-934 | The scan that stops at the first revoking card computes the order-free rule |
| SeosStatus.Validity | src/agsync/lib/pacs/millennium_ultra/adapter.py:891-901 | The start is the latest of the present cards' starts, the end the earliest of their ends |
| SeosStatus.EarliestEndBefore | src/agsync/lib/pacs/millennium_ultra/adapter.py:898-901 | A pass has run out exactly when one of its present written cards has |
| Ledger.RecordKeepsLastPerCard | src/agsync/lib/pacs/millennium_ultra/pacs_cards.py:122-161 | Recording keeps one row per card, the last one offered, in slot order; a box left unsaid keeps what was recorded for that card |
| Ledger.PacsCards.Record | src/agsync/lib/pacs/millennium_ultra/pacs_cards.py:122-161 | The delete-and-insert loops leave exactly that in the table, and no other key changed |
| Ledger.StoredInPlace | src/agsync/lib/pacs/millennium_ultra/pacs_cards.py:122-161 | Changing entries in place without unlearning a box stores them as they are |
| Ledger.PacsCards.Forget | src/agsync/lib/pacs/millennium_ultra/pacs_cards.py:184-190 | Only the named credential's rows go |
| LedgerRules.EveryRunIsRuled | src/agsync/lib/pacs/millennium_ultra/adapter.py:282-565 | Over every interleaving of reads, switches, offers, retirements and flushes, under any exports, identities and import logs: an entry pending activate never has recorded Active true, cards not yet written have no recorded box, each credential has one row a card and at most one trigger card |
| LedgerRules.NeverOverrulesAnUntick | src/agsync/lib/pacs/millennium_ultra/adapter.py:305-315 | So in every run a card waiting to be switched on is one we had not switched on before |
| LedgerRules.OfferedIsRuled | src/agsync/lib/pacs/millennium_ultra/adapter.py:466-541 | Recording offered cards keeps those rules |
| LedgerRules.ReadIsRuled | src/agsync/lib/pacs/millennium_ultra/adapter.py:721-837 | Every ledger a read leaves keeps those rules |
| CardChanges.SwitchCards | src/agsync/lib/pacs/millennium_ultra/adapter.py:298-322 | False with nothing changed exactly when no card can be switched or an operator's untick would be overruled; otherwise every switchable card is settled or pending as asked |
| CardChanges.SwitchSays | src/agsync/lib/pacs/millennium_ultra/adapter.py:298-322 | Of a switch, said of the entries: refused without a written, undoomed card on the cardholder, and a switch on where a card recorded on is off; a card found as wanted is settled so, any other is to be sent, and no other is touched |
| CardChanges.SwitchedKeepsCards | src/agsync/lib/pacs/millennium_ultra/adapter.py:282-322 | Switching never moves, adds or drops a card, and forgets no box |
| CardChanges.MarkForDeletion | src/agsync/lib/pacs/millennium_ultra/adapter.py:543-565 | Exactly the live written cards named are marked, and counted |
| CardChanges.MarksSay | src/agsync/lib/pacs/millennium_ultra/adapter.py:543-565 | Marked are the named cards that are written and not dormant; counted are those of them not marked before |
| Adapter.MillenniumAdapter.ListPeople | src/agsync/lib/pacs/millennium_ultra/adapter.py:189-242 | An error without a trigger format or without an export; otherwise the cardholders whose Employee ID exactly one row of the export carries, each with that row |
| Adapter.MillenniumAdapter.ListCredentials | src/agsync/lib/pacs/millennium_ultra/adapter.py:244-265 | An unread cardholder is an error, not an empty list; a read one gets the functional reading, others' rows untouched; of one with nothing recorded it says outright for which trigger cards a pass is recorded, and that one with a pass tracked reads back empty |
| Adapter.MillenniumAdapter.UpdateCredentialStatus | src/agsync/lib/pacs/millennium_ultra/adapter.py:282-322 | The answer and the whole new ledger of a switch |
| Adapter.MillenniumAdapter.WriteBackCredentials | src/agsync/lib/pacs/millennium_ultra/adapter.py:466-541 | The answer and the whole new ledger of an offer: True exactly when the offer is theirs, nobody on the export holds a card of it, and there is nothing to write or no insert waits and there is room, from the ledger and the export themselves |
| Adapter.MillenniumAdapter.RetireCredentials | src/agsync/lib/pacs/millennium_ultra/adapter.py:543-565 | The count and the whole new ledger of a retirement |
| Adapter.MillenniumAdapter.FinishCycle | src/agsync/lib/pacs/millennium_ultra/adapter.py:324-434 | The whole new ledger after deletions and import, whatever Millennium answers; exactly the deletions asked; the import sent unless there is nothing to send or it is a dry run, carrying every pending change and nothing else, its log what the answers say together |
| WriteBack.AllocatesSafely | src/agsync/lib/pacs/millennium_ultra/adapter.py:466-541 | Inserts take pairwise distinct slots, each the trigger card's or one empty in the export and unrecorded; no inserted card is on any cardholder; what was recorded stays first and unchanged |
| WriteBack.WritesOnlyBesideItsOwn | src/agsync/lib/pacs/millennium_ultra/adapter.py:481-498 | Nothing is written for a pass none of whose cards were recorded, nor when every offered card is a stranger; offering only recorded cards keeps all |
| WriteBack.AddsFirstPairAndWatches | src/agsync/lib/pacs/millennium_ultra/adapter.py:505-541 | Exactly which offered cards are added: beside the trigger card the first, in its slot, and every one of a pair's; otherwise watches only |
| WriteBack.OfferedAgain | src/agsync/lib/pacs/millennium_ultra/adapter.py:466-541 | After an addition nothing more is added, whatever is offered, of whatever device type, for any pair flag |
| Adapter.OfferIsSafe | src/agsync/lib/pacs/millennium_ultra/adapter.py:466-541 | Safe allocation against the whole ledger: unrecorded for any pass of the person, on no cardholder of the export |
| Adapter.OfferedTwice | src/agsync/lib/pacs/millennium_ultra/adapter.py:466-541 | Offering again in the same cycle leaves the ledger as the first offer left it |
| WriteBack.PlanWriteBack | src/agsync/lib/pacs/millennium_ultra/adapter.py:481-541 | The adapter's loops take exactly the decision reasoned about, and add or keep an offer exactly on those conditions |
| WriteBack.OfferIsAnswered | src/agsync/lib/pacs/millennium_ultra/adapter.py:481-541 | Exactly when an offer is added, when kept and when refused: entries recorded, and just issued or a card offered that is recorded; no unrecorded card of it on any holder; how many there are to write; no insert waiting; and as many as one for the trigger card's slot and one for each slot empty in the export and recorded for no pass of theirs |
| WriteBack.OfferIsPlaced | src/agsync/lib/pacs/millennium_ultra/adapter.py:529-541 | Into which slots: the first trigger card's first, then the free ones in the export's order |
| Flush.ImportCreditsExactlyTheLog | src/agsync/lib/pacs/millennium_ultra/adapter.py:361-388 | The import step settles exactly the switches and inserts the log confirms, with the box as sent; a trigger card's record goes exactly when an insert of its pass was taken; every other entry is unchanged |
| Flush.DeletedStaysDeleted | src/agsync/lib/pacs/millennium_ultra/adapter.py:324-334 | A card marked for deletion is off the ledger after the flush exactly when it was gone or Millennium deleted it; the import does not record it back |
| Flush.UnconfirmedIsSentAgain | src/agsync/lib/pacs/millennium_ultra/adapter.py:335-354 | A change is settled iff confirmed, and one that was not is sent again once its cardholder is read again |
| Flush.FlushIsWellKept | src/agsync/lib/pacs/millennium_ultra/adapter.py:324-434 | Whatever is deleted and logged, each credential keeps one row a card in slot order, and no credential keeps an empty record |
| CycleFlush.Finish | src/agsync/lib/pacs/millennium_ultra/adapter.py:324-388 | The flush as run: ledger, requests, rows, files and credits, for any answers; nothing credited unless every file was answered |
| CycleFlush.DeletePass | src/agsync/lib/pacs/millennium_ultra/adapter.py:390-434 | Exactly one delete request for each marked card that is present, none in a dry run; exactly what was deleted or already gone leaves the ledger |
| CycleFlush.DeleteCards | src/agsync/lib/pacs/millennium_ultra/adapter.py:390-434 | The same over the whole ledger: every marked card of every cardholder read is asked for, and nothing else |
| CycleFlush.AskedAre | src/agsync/lib/pacs/millennium_ultra/adapter.py:390-434 | Asked for are exactly the cards marked for deletion that are still on a cardholder who was read; none in a dry run |
| CycleFlush.SendFiles | src/agsync/lib/pacs/millennium_ultra/adapter.py:361-364 | Every file sent in turn; the log is all the answers' skips together, and none once one import failed |
| CycleFlush.MergedSays | src/agsync/lib/pacs/millennium_ultra/adapter.py:361-371 | The log of an import in several files: there is one only if each was answered, and it skips whoever and whatever one of them skips |
| CycleFlush.CreditPasses | src/agsync/lib/pacs/millennium_ultra/adapter.py:365-388 | Crediting the pending passes one by one is the import step on the whole ledger |
| CycleFlush.CollectRows | src/agsync/lib/pacs/millennium_ultra/adapter.py:335-361 | One row a cardholder, under their name, carrying every change of all their passes when the changes are in distinct slots, and in any case nothing but such changes |
| CardImport.ChangesAreCarried | src/agsync/lib/pacs/millennium_ultra/adapter.py:347-353 | Changes in distinct slots do not overwrite each other's cells, and nothing else is set |
| CardImport.ChangeSays | src/agsync/lib/pacs/millennium_ultra/adapter.py:347-353 | Exactly the cells of a change: its card's number and facility code and the box asked for; for a new card also the trigger format, the instant, the box off, and the levels it copies |
| CardImport.TriggerLevelsFirst | src/agsync/lib/pacs/millennium_ultra/adapter.py:447-456 | While the trigger card is there with its levels, those are the ones a new card gets |
| CardImport.LevelsComeFrom | src/agsync/lib/pacs/millennium_ultra/adapter.py:447-456 | Whose levels a new card copies: a card of the pass that is there and has some, the trigger card before any other; none exactly where there is none |
| CardImport.NewCardCopiesLevels | src/agsync/lib/pacs/millennium_ultra/adapter.py:436-464 | A new card's level columns read back as exactly the levels of the trigger card, or of the card that replaced it |
| ImportFile.GroupingIsAPartition | src/agsync/lib/pacs/millennium_ultra/import_file.py:103-119 | Every row lands in exactly one group, with all and only the rows of its columns, in the order given |
| ImportFile.SameColumnsSameCells | src/agsync/lib/pacs/millennium_ultra/import_file.py:67-68 | The sorted column tuple is canonical: equal exactly when the same cells are set |
| ImportFile.ColumnsSay | src/agsync/lib/pacs/millennium_ultra/import_file.py:67-77 | A row's columns are the three that name the cardholder and then the cells it sets, a cell set winning |
| ImportFile.SameFileIffSameCells | src/agsync/lib/pacs/millennium_ultra/import_file.py:103-119 | Two rows share a file iff they set exactly the same cells |
| ImportFile.Build | src/agsync/lib/pacs/millennium_ultra/import_file.py:103-144 | Refused exactly when a named card lacks its identity or a cell has no field; otherwise each file is the full rectangle of its group, column i mapped to its cell's field |
| ImportFile.IdentifiedSays | src/agsync/lib/pacs/millennium_ultra/import_file.py:105-120 | A row can be imported only if each card it sets a cell of has both its number and its facility code |
| ImportFile.AccessLevelCells | src/agsync/lib/pacs/millennium_ultra/import_file.py:82-94 | The loop sets a name cell for each level and a date cell for each date that is not empty |
| ImportFile.LevelsReadBack | src/agsync/lib/pacs/millennium_ultra/import_file.py:82-94 | The level cells built for a card read back as exactly the levels copied |
| ImportFile.LevelLabelInjective | src/agsync/lib/pacs/millennium_ultra/import_file.py:82-94 | No two level columns share a label |
| ImportFile.LevelIdsAt | src/agsync/lib/pacs/millennium_ultra/import_file.py:37-46 | The level columns by name, and Millennium's field numbers for them |
| ImportFile.WithLevelSays | src/agsync/lib/pacs/millennium_ultra/import_file.py:80-94 | A level's cells: its name, and each of its dates that is set, in columns of its own |
| Passes.IssuedMinusDeleted | src/agsync/sync/tracking.py:109-219 | Passes issued minus passes deleted is 0 or 1 for every credential, and 1 exactly when its row holds an id and is not deduped |
| Phases.Sync.Run | src/agsync/sync/engine.py:438-470 | Over any run of cycles, however each is configured, whatever is read and answered, that balance holds for every credential, and every delete, suspend and resume named an id our own provision returned for it |
| Phases.Sync.Cycle | src/agsync/sync/engine.py:438-470 | However far a cycle gets before a crash or a superseded configuration, it asks AccessGrid and tells the PACS exactly what its phases owe, in their order, each phase starting from the table the one before left, the last leaving the table as it is found; a completed cycle has come to every cardholder read and every row; under three tenths of the last whole read it revokes nobody for being missing and leaves the baseline, otherwise it revokes all of them and the baseline is this read |
| PhaseEffects.CycleDeletes | src/agsync/sync/phases/phase3_deletions.py:63-136 | What a cycle's phase 3 deletes, from the size of the read and the baseline alone |
| PhaseEffects.DryRunAsksNothing | src/agsync/sync/phases/phase1_provision.py:206-215 | A dry run asks nothing of AccessGrid, in any phase |
| Traces.TraceIsJustified | src/agsync/sync/engine.py:438-470 | Every call such a cycle makes of AccessGrid is justified by the snapshot, however far it got |
| Traces.TraceIsAllowed | src/agsync/sync/engine.py:438-470 | And beside phase 3's retirements everything it tells the PACS is about a credential read and not held |
| Phases.Sync.Phase1 | src/agsync/sync/phases/phase1_provision.py:47-276 | Cardholder by cardholder and credential by credential: exactly the passes asked for that are owed within the cap, their identities handed to the PACS where AccessGrid allocated them, and the table exactly as each attempt, refresh, dedupe or skip leaves it; a failed attempt leaves a pending row with one error more; unless stopped it comes to every cardholder read |
| Issuing.WaitingIsAsked | src/agsync/sync/phases/phase1_provision.py:69-212 | A pass is asked for iff its credential waited for one when the phase began (eligible, none yet, no other tool's card) and the cap was not reached before its turn; and its row ends as that one step leaves it |
| IssueEffects.StepIsAsked | src/agsync/sync/phases/phase1_provision.py:69-212 | The same said of the roster and the table: active, named and reachable cardholder, credential unheld, with its trigger and not run out, no pass in the table, no other tool's card with its number, the cap not reached, no dry run |
| IssueEffects.StepIsRecorded | src/agsync/sync/phases/phase1_provision.py:178-276 | The row an attempt leaves, issued or failed, column by column |
| IssueEffects.PassedOverIsRecorded | src/agsync/sync/phases/phase1_provision.py:72-176 | The row where no pass was asked for: a pass's state brought up to the listing, another tool's card written down, or as it was |
| IssueEffects.StepsAreCredentials | src/agsync/sync/phases/phase1_provision.py:60-72 | A step for every credential of the active cardholders it came to, and no other |
| IssueEffects.IssuedIsHandedOver | src/agsync/sync/phases/phase1_provision.py:214-276 | The PACS is handed exactly the identities alive on a pass just issued, where AccessGrid allocated them and it takes them |
| Issuing.PassRefreshed | src/agsync/sync/phases/phase1_provision.py:87-98 | A pass is never asked for again; its row changes in its remembered state alone, and exactly if phase 1 comes to an unheld, trigger-active credential of it |
| Phases.Sync.ConsiderForIssue | src/agsync/sync/phases/phase1_provision.py:69-212 | A provision is asked for iff the credential is eligible, holds no pass, has no dedupe hit and the cap is not reached; otherwise the table is only refreshed or deduped as the code has it |
| Phases.Sync.Phase2 | src/agsync/sync/phases/phase2_local_to_ag.py:98-227 | Exactly phase 2's call for every row it comes to, all of them unless a call crashes, and each row as its call was answered; a pass is deleted exactly where its row is not deleted, pending or deduped and its credential was read, unheld and without its trigger |
| PhaseEffects.WithdrawnIsDeleted | src/agsync/sync/phases/phase2_local_to_ag.py:101-137 | That pass is asked one Delete, naming its row's id, and nothing else, whatever its state and history; no other row gets a Delete |
| PhaseEffects.StatusIsCarriedOver | src/agsync/sync/phases/phase2_local_to_ag.py:137-225 | While the trigger is there, the one call a row gets or that it gets none, by the states themselves: resumed where active and listed suspended; suspended where neither active nor awaiting its install and listed active, unlisted, or a customer's own and just created; nothing where the state is not the one remembered |
| PhaseEffects.StatusIsRecorded | src/agsync/sync/phases/phase2_local_to_ag.py:122-225 | The row after, by what it was answered: deleted, active, suspended or as it was |
| PhaseEffects.StateIsRead | src/agsync/sync/snapshot.py:43-81 | The state a pass reads: that of the first card listed under its reference, or, its reference not listed, of the last card listed under its id; none where there is none |
| Phases.Sync.Reconcile | src/agsync/sync/phases/phase2_local_to_ag.py:101-227 | Exactly phase 2's call for a row, or none; the row changes when that call was answered, and only as it says |
| Phases.Sync.Phase3 | src/agsync/sync/phases/phase3_deletions.py:68-188 | Exactly the deletions there is evidence for, rationed in the table's order, over the rows it comes to, each row as its deletion was answered; from the size of the read and the baseline: under three tenths, only credentials read that have run out and the baseline stays; otherwise all that the read shows missing too, and the baseline becomes the read; at most 25 deletions of credentials still reported, all of those run out unless 25; an empty read touches nothing; in the PACS exactly the retirements below |
| PhaseEffects.OnlyTheseAreDeleted | src/agsync/sync/phases/phase3_deletions.py:75-136 | No pass is deleted but on that evidence, by the id its row holds |
| PhaseEffects.AllTheseAreDeleted | src/agsync/sync/phases/phase3_deletions.py:75-136 | And every one there is that evidence for, of a phase that comes to the end of the table |
| PhaseEffects.DeletionIsRecorded | src/agsync/sync/phases/phase3_deletions.py:160-184 | A row is released once its deletion was answered, dropped where the pass was gone already, else as it was |
| PhaseEffects.ExpiredAreRetired | src/agsync/sync/phases/phase3_deletions.py:138-175 | Retired exactly for the expired passes whose deletion was answered: the identities alive on any of their cards |
| PhaseEffects.DeadAreReleased | src/agsync/sync/phases/phase3_deletions.py:191-260 | Of a row with a pass of the sync's own and cards it wrote, exactly the identities AccessGrid says are deleted are retired, unless 25 were already |
| Asks.RevokedOnEvidence | src/agsync/sync/phases/phase3_deletions.py:93-136 | Every deletion asked has its evidence: person or credential gone from a read taken as complete, or a credential run out; OnlyTheseAreDeleted says when a read is complete |
| Phases.Sync.Revoke | src/agsync/sync/phases/phase3_deletions.py:93-182 | Exactly one delete when there is evidence and the expiry cap allows, else nothing; the row is released exactly when the pass was deleted or not found; the cards of a pass that ran out are retired exactly after an answered delete, as they were read before it |
| Retirement.ExpiredOnAnswer | src/agsync/sync/phases/phase3_deletions.py:138-174 | Whatever the first pass retires: its deletion was answered, its credential has run out, and what goes is exactly what the pass's own cards still carry alive |
| Phases.Sync.RetireDeleted | src/agsync/sync/phases/phase3_deletions.py:191-260 | Row by row of the table, exactly the retirements owed, until 25 have been counted |
| Retirement.RetiredOnEvidence | src/agsync/sync/phases/phase3_deletions.py:219-256 | Whatever the second pass retires: for a row with a pass of ours that the PACS holds written cards for, before 25 were counted, and exactly what that row's own cards say is deleted |
| Decisions.ReasonIsEvidence | src/agsync/sync/phases/phase3_deletions.py:93-134 | The order of phase 3's checks amounts exactly to the evidence stated: complete and absent, read without the credential, or past its date |
| Phases.Sync.Phase4 | src/agsync/sync/phases/phase4_ag_to_local.py:185-263 | Exactly the write-backs, then the boxes, then the followed states, for every row of the table; nothing of a row changes but its remembered state; a customer's own card is switched off exactly where its pass newly reads suspended and it is not SUSPENDED, on exactly where its pass newly reads active or created and it is not ACTIVE |
| PhaseEffects.StateIsFollowed | src/agsync/sync/phases/phase4_ag_to_local.py:195-231 | All that is told of a customer's own card, by the state its pass reads and the one remembered: one switch or nothing |
| PhaseEffects.PassIsGated | src/agsync/sync/phases/phase4_ag_to_local.py:78-182 | All that is told of a card AccessGrid allocated: the identities alive on its pass, and its box where it is not as it is to be, on exactly while no card of the pass reads suspended and one not deleted, unlinked or unlink is installed or active on a device |
| PhaseEffects.OthersAreNotTold | src/agsync/sync/phases/phase4_ag_to_local.py:120-213 | Nothing is told of a credential held or not read |
| PhaseEffects.StateIsRemembered | src/agsync/sync/phases/phase4_ag_to_local.py:195-263 | A pass's new state is remembered unless its credential is held, or the PACS was told to follow it and refused |
| PhaseEffects.FollowedIsAnswered | src/agsync/sync/phases/phase4_ag_to_local.py:236-263 | The PACS answers for exactly the states it was told |
| Phases.Sync.Phase5 | src/agsync/sync/phases/phase5_retries.py:31-188 | Asks again, in order, for exactly the failed passes whose credential still wants one, hands over their identities likewise, and leaves each failed row exactly as its attempt ended, or released, deduped, with one error more or alone where none was made |
| WholeCycle.FailedIsRetriedAtOnce | src/agsync/sync/phases/phase5_retries.py:43-185 | A provision that fails in phase 1 leaves the row pending with one error more, no phase between touches it, and phase 5 of the same cycle tries again, exactly while fewer than three failures are counted; the row that leaves |
| Phases.Sync.ReleaseRow | src/agsync/sync/phases/phase3_deletions.py:232-256 | One row's retirement names exactly the identities its own cards say are deleted, and is not made when there are none or the PACS holds nothing written for it |
| Phases.Sync.Gate | src/agsync/sync/phases/phase4_ag_to_local.py:113-182 | The install gate writes a box exactly where the pass and its card disagree, with what the pass says, for an unheld minted credential |
| Phases.Sync.FollowState | src/agsync/sync/phases/phase4_ag_to_local.py:195-263 | The status loop writes exactly where a customer's own card differs from its pass's new state, and remembers a new state exactly when the credential is not held and the PACS was not told or did not refuse |
| Phases.Sync.Retry | src/agsync/sync/phases/phase5_retries.py:51-185 | A retry asks for a provision iff the credential is still there, triggered, unheld and reachable with no dedupe hit |
| IssueEffects.RetryIsAsked | src/agsync/sync/phases/phase5_retries.py:31-150 | Over the whole table: asked again exactly for the rows without a pass that failed fewer than three times, whose credential is there, unheld, with its trigger, the cardholder reachable and no other tool's card in its place, no dry run |
| IssueEffects.RetryIsRecorded | src/agsync/sync/phases/phase5_retries.py:51-185 | And each such row after: left, dropped, one error more, deduped, or as the attempt ended |
| IssueEffects.ReissuedIsHandedOver | src/agsync/sync/phases/phase5_retries.py:150-185 | The PACS is handed exactly the identities alive on a pass issued again |
| Asks.IssuedIsNotDeletedAtOnce | src/agsync/sync/phases/phase1_provision.py:100-110 | Phase 1 issues nothing that phase 3 of the same cycle would delete |
| Asks.RetriedIsDeletedIfExpired | src/agsync/sync/phases/phase5_retries.py:51-67 | Phase 5, which does not look at the date, issues what phase 3 would delete exactly when the credential has run out |
| Asks.RetriedUnchecked | src/agsync/sync/phases/phase5_retries.py:51-68 | Phase 5 issues again for a credential phase 1 would not issue for exactly when it has run out, its person has no name, or its person is inactive |
| Asks.RunOutIsRetried | src/agsync/sync/phases/phase5_retries.py:51-68 | One such: a nameless cardholder's run-out credential, retried while phase 3 has the evidence to delete its pass |
| WholeCycle.HeldIsLeftAlone | src/agsync/lib/pacs/millennium_ultra/adapter.py:735-737 | In any cycle, of a held credential AccessGrid is asked nothing, the PACS is told nothing but phase 3's second retirements, and no phase but the fourth changes its row |
| WholeCycle.HeldIsRetired | src/agsync/sync/phases/phase3_deletions.py:219-256 | Those look at no hold: in a completed cycle something is retired for a held credential iff the PACS holds written cards for its own pass, its cards name something deleted, and fewer than 25 were retired before it; and exactly what they name |
| WholeCycle.HeldLedgerChanges | src/agsync/lib/pacs/millennium_ultra/adapter.py:543-565 | The ledger of a held pass changes in a completed cycle iff that is so and one of those cards is recorded, written, not dormant and not marked already; and how |
| WholeCycle.HeldRowStays | src/agsync/sync/phases/phase4_ag_to_local.py:197-223 | The row of a held credential stays exactly as it was unless the status loop finds its pass in a new state that answers to no credential status |
| WholeCycle.HeldIsReleased | src/agsync/sync/phases/phase3_deletions.py:191-260 | A completed cycle that marks a held pass's recorded card for deletion and changes its row |
| Asks.HeldGetsNothing | src/agsync/sync/phases/phase2_local_to_ag.py:108-112 | A held credential gets no AccessGrid call from any phase, and no status or write-back call |
| Asks.UnreadGetsNothing | src/agsync/sync/phases/phase3_deletions.py:98-110 | A cardholder on the roster who was not read gets no call |
| Asks.DeletedOnEvidence | src/agsync/sync/phases/phase3_deletions.py:111-117 | A missing credential is deleted only on a complete read; with nobody read, only for a withdrawn trigger |
| Tracking.Table.Upsert | src/agsync/sync/tracking.py:109-154 | The row as given, without an error; a reference kept when none is given, a retry count always kept; a new row has no retries; no other row changes |
| Tracking.FailuresAreCounted | src/agsync/sync/tracking.py:109-154 | Marking a row pending forgets neither its reference nor its failures: however phases 1 and 5 take turns failing, phase 5 tries again exactly while fewer than three are counted |
| Tracking.Table.MarkDeleted | src/agsync/sync/tracking.py:173-198 | The row stays, with its reference and no retries, neither holding a pass nor retryable; no other row changes |
| Tracking.ReleasedIsIssuedAfresh | src/agsync/sync/tracking.py:173-198 | A released row can be issued for again, and then reads as if it had never been issued before |
| Tracking.Table.FailedRecords | src/agsync/sync/tracking.py:222-233 | Exactly the failed rows below the retry limit, none of which holds a pass |
| Snapshot.BuildIndex | src/agsync/sync/snapshot.py:211-231 | Every index, by id, reference, employee, token and site and card, answers as a scan of the listing would |
| Snapshot.ListedReferenceDecides | src/agsync/sync/snapshot.py:43-81 | A listed reference resolves to all and only the cards carrying it, in listing order |
| Snapshot.UnlistedReferenceNeverFallsThrough | src/agsync/sync/snapshot.py:43-81 | An unlisted reference resolves to the card of that id or to nothing, never by person and credential |
| Snapshot.NoReferenceGoesById | src/agsync/sync/snapshot.py:43-81 | Without a reference: the last card listed under the id, or where there is none all and only the person's cards of that credential |
| Snapshot.Details.DetailedCards | src/agsync/sync/snapshot.py:83-118 | Length and order kept; each card id read at most once a cycle and answered the same all cycle; a failed read answers with the listed card it was made for |
| Snapshot.FromIndexIsListed | src/agsync/sync/snapshot.py:83-118 | Only cards of the listing are ever read or remembered |
| AgCards.OfferedExactly | src/agsync/sync/phases/writeback.py:180-197 | Offered: exactly the identities with some live occurrence, each once |
| AgCards.ReleasedExactly | src/agsync/sync/phases/writeback.py:150-177 | Retired: exactly the identities with some dead occurrence or under a dead card, each once |
| AgCards.OfferedSays | src/agsync/sync/phases/writeback.py:47-197 | Both said of the cards and their entries: which identities are offered and which retired, by the state each states, or its status where it states none, being that of a deletion |
| AgCards.OfferedUnder | src/agsync/sync/phases/writeback.py:112-148 | Each offered identity comes under the device type of an entry carrying it, or under none as the card's own |
| AgCards.OfferedOrReleased | src/agsync/sync/phases/writeback.py:112-197 | Together they cover every numbered occurrence and nothing else |
| AgCards.OfferedAndReleased | src/agsync/sync/phases/writeback.py:112-197 | They are disjoint iff no identity live in one card is dead in another |
| AgCards.OneStateEach | src/agsync/sync/phases/writeback.py:112-197 | They are disjoint when each identity has one state and no dead card a live entry |
| AgCards.PairOffersTheSame | src/agsync/sync/phases/writeback.py:180-197 | A unified pass with details offers the same identities as its halves listed separately |
| AgCards.IdentitiesFromCards | src/agsync/sync/phases/writeback.py:180-197 | The nested loops compute the offered identities |
| AgCards.DeletedIdentitiesFromCards | src/agsync/sync/phases/writeback.py:150-177 | The nested loops compute the retired identities |
| Migration.Database.Ensure | src/agsync/lib/pacs/millennium_ultra/migrate.py:32-133 | Either nothing changes, or both tables are the simultaneous substitution of what the pages say, losing nothing, and the done flag is set; the latter exactly when every page is readable, no Employee ID is shared and no statement fails |
| Migration.MovedSays | src/agsync/lib/pacs/millennium_ultra/migrate.py:64-122 | Where one row goes, from its record's page: to the Employee ID where the page carries the record's own id, among the gone otherwise |
| Migration.CanMoveSays | src/agsync/lib/pacs/millennium_ultra/migrate.py:55-98 | And when all can move: every page read, each record still there with an Employee ID, no two with the same one |
| Migration.Database.Move | src/agsync/lib/pacs/millennium_ultra/migrate.py:98-125 | The sequential updates through the prefix equal renaming every key at once; they never break the table's uniqueness, and a failing statement leaves everything as it was |
| Migration.SubstitutionLosesNothing | src/agsync/lib/pacs/millennium_ultra/migrate.py:98-121 | Of either table, one row or many to a key: no row lost, no two keys merged, no key left under the prefix, each record's rows and only they under its new id |
| Migration.HalfwayIsDistinct | src/agsync/lib/pacs/millennium_ultra/migrate.py:98-121 | Half-moved keys never collide, even when one record id is another's Employee ID |
| Migration.Database.ReadPages | src/agsync/lib/pacs/millennium_ultra/migrate.py:46-96 | A plan exactly when every record's page is readable and no two share an Employee ID |
| HtmlForm.MultipartReadsBack | src/agsync/lib/pacs/millennium_ultra/html_form.py:254-294 | Splitting the body by the delimiter rules of section 5.1.1 of RFC 2046 gives back exactly the submitted parts in document order |
| HtmlForm.SubmittedAre | src/agsync/lib/pacs/millennium_ultra/html_form.py:60-78 | What is submitted: no button, a box or a choice only while ticked, a file empty, anything else with its value |
| HtmlForm.ValueIs | src/agsync/lib/pacs/millennium_ultra/html_form.py:69-78 | The value of a list is its first selected option's, or else its first option's, or empty; of anything else its own |
| HtmlForm.ChunkIs | src/agsync/lib/pacs/millennium_ultra/html_form.py:278-292 | A part on the wire, byte for byte |
| HtmlForm.ValueEnds | src/agsync/lib/pacs/millennium_ultra/html_form.py:286-291 | A value ends at its own delimiter line exactly when it holds none itself: nothing earlier is one, not even overlapping it |
| HtmlForm.CardholderForm.ToMultipart | src/agsync/lib/pacs/millennium_ultra/html_form.py:268-294 | The chunk loop renders exactly the submitted parts |
| HtmlForm.CardholderForm.SetValue | src/agsync/lib/pacs/millennium_ultra/html_form.py:227-244 | Fails exactly on an unknown field or option, changing nothing; otherwise the field submits the value, a select has exactly one option selected, every other control is unchanged |
| HtmlForm.CardholderForm.SetChecked | src/agsync/lib/pacs/millennium_ultra/html_form.py:246-250 | Fails exactly on an unknown field; otherwise only its first control's tick changes |
| HtmlForm.OtherPairsUnchanged | src/agsync/lib/pacs/millennium_ultra/html_form.py:227-266 | Setting one control leaves every other submitted pair where it was |
| Rc4.TextRoundTrip | src/agsync/lib/pacs/cdvi/client.py:68-107 | Decrypting what was encrypted gives the text back, for every ASCII text and non-empty key |
| Rc4.PayloadRoundTrip | src/agsync/lib/pacs/cdvi/client.py:336-424 | A wrapped payload opens to the text put in, its 16-bit checksum accepted |
| Rc4.KeystreamIs | src/agsync/lib/pacs/cdvi/client.py:86-90 | The stream is RC4's: how the two indexes and the box change from byte to byte, and which byte comes out |
| Rc4.BoxIsScheduled | src/agsync/lib/pacs/cdvi/client.py:68-76 | And its box is RC4's to begin with: the exchanges of the key schedule |
| Rc4.XorIsBitwise | src/agsync/lib/pacs/cdvi/client.py:90-107 | Each bit of a combined byte says whether the two differ there |
| Rc4.EncodedSays | src/agsync/lib/pacs/cdvi/client.py:84-84 | A text has bytes exactly when every character is one of the first 256, and then they are those |
| Rc4.KeystreamSetup | src/agsync/lib/pacs/cdvi/client.py:68-76 | Key scheduling in place computes the defined box, a permutation of 0..255 |
| Rc4.NextByte | src/agsync/lib/pacs/cdvi/client.py:86-90 | A keystream step in place keeps the permutation and yields the defined byte |
| Rc4.Encrypt | src/agsync/lib/pacs/cdvi/client.py:79-90 | The loop computes hex of the data combined with the keystream |
| Rc4.Decrypt | src/agsync/lib/pacs/cdvi/client.py:93-107 | The loop reads each pair as int(pair, 16) does, blanks, signs and the decimal digits of other scripts included, and combines with the same keystream; a pair it cannot read is an error |
| Rc4.SignSays | src/agsync/lib/pacs/cdvi/client.py:93-107 | How int(pair, 16) reads a sign |
| Rc4.PrefixSays | src/agsync/lib/pacs/cdvi/client.py:93-107 | And "0x" |
| Rc4.TrimmedIs | src/agsync/lib/pacs/cdvi/client.py:93-107 | And the blanks around it |
| Rc4.ChecksumReadsBack | src/agsync/lib/pacs/cdvi/client.py:110-113 | The four hex digits read back as the low sixteen bits of the byte sum |
| Roster.IdentitiesJson | src/agsync/lib/pacs/avigilon/client.py:358-383 | The page loop computes the paging function |
| Roster.CompleteOrRaises | src/agsync/lib/pacs/avigilon/client.py:358-383 | A read that returns holds every identified row of the pages it read, each once, at least the total declared, within the page limit |
| Roster.HonestIsReadWhole | src/agsync/lib/pacs/avigilon/client.py:358-383 | An honest server's list comes back exactly, in order, or is refused; refused exactly when it fills the last allowed page without that page declaring the total, or goes beyond it |
| Roster.IgnoringPagesIsRejected | src/agsync/lib/pacs/avigilon/client.py:358-383 | Exactly when a server that ignores page is rejected: whenever its first page is not the whole roster |
| Roster.Preference.Read | src/agsync/lib/pacs/avigilon/client.py:319-342 | The preference names the format that last succeeded; a failed sign-in is not retried in the other format |
| Lockout.LocksAreEarned | src/agsync/routes/auth.py:36-98 | However logins overlap and whatever the clock does, at least eight recorded failures make each lock |
| Lockout.EightLock | src/agsync/routes/auth.py:64-98 | Of eight failures, the first more than a quarter of an hour after any counted before: the eighth locks exactly when it comes within a quarter of an hour of the first; and for how long |
| Lockout.NewKeyLocks | src/agsync/routes/auth.py:64-98 | So of a key that never failed |
| Lockout.FewerThanEight | src/agsync/routes/auth.py:64-98 | Fewer never lock, and are counted from the first of them while it is no more than a quarter of an hour ago |
| Lockout.LocksHoldUndisturbed | src/agsync/routes/auth.py:64-98 | Every lock holds for its whole time exactly when no failure is recorded on a row that is locked, which recording does not check; the clock not running backwards |
| Lockout.LevelsTakeTime | src/agsync/routes/auth.py:64-98 | Where the locks hold, level k+1 comes no sooner than the first k lockouts after the first lock |
| Lockout.LoginsApartTakeTime | src/agsync/routes/auth.py:114-131 | So for logins that do not overlap, each recording its failure before another looks the key up |
| Lockout.OverlapBreaksLocks | src/agsync/routes/auth.py:114-131 | It fails for overlapping ones: sixteen looked up at an instant before any is recorded reach level 2 at once, the ninth failure clearing the lock the eighth set |
| Lockout.LockoutsDouble | src/agsync/routes/auth.py:85-87 | The first k-1 lockouts take 60 * (2^(k-1) - 1) seconds together, up to k = 12 |
| Lockout.LockoutIsCapped | src/agsync/routes/auth.py:85-87 | From level 12 on every lock lasts a day |
| Lockout.LoginAttempts.RecordFailure | src/agsync/routes/auth.py:64-98 | The new row of a failure, and no other key's row changed |
| Lockout.LoginAttempts.RecordSuccess | src/agsync/routes/auth.py:101-103 | The key starts afresh, and no other key's row changed |
| Lockout.LoginAttempts.IsLocked | src/agsync/routes/auth.py:36-50 | Locked while the lock runs; a lock that has run out is cleared |

## Left out

- Phase 6, mailing, logging, diagnostics, the dry-run messages and the settings pages: no effect on the state modelled.
- HTTP, sessions, cookies, HTML, CSV, ZIP and XML parsing, encryption at rest: the model starts from typed rows, slots and controls.
- The cycle lock and the generation counter: cycles are sequential; being superseded is a nondeterministic cut between phases. Logins do interleave, call by call.
- Other vendors' adapters, email synthesis and card-number decoding: field mapping.
- `export.parse`'s dates and column lookup: `Slot` and `Cardholder` are given.
- Tracking's field-tracking columns (names, e-mail, phone, title): no phase modelled here reads them.
- Case folding beyond ASCII: `Lower` is ASCII.
- Text order is by code point; the ledger's listing of a person's passes is taken in that order.
- Phases.Sync.Run: takes a failed or crashed delete as not having deleted, and a pass not found by phase 3 as gone, as the code does.
- Asks.UnreadGetsNothing: speaks of cardholders on the roster; a cardholder absent from a complete roster is a different claim, which `DeletedOnEvidence` covers.
- ControlLoop.NoLivelock: one pass whose cards are all recorded, present and in force, with every import applied. A pass that runs out, loses a card or gains one leaves that state, and the claim begins again once it rests.
- Passes.AccessGrid.Provision: a success is assumed to carry a non-empty id never issued before, and a state other than "deduped".
- CycleRuns.RunFallsSilent: a cardholder with the one pass, every trigger slot one of its cards; each turn completed and its call answered, its import confirmed and applied, and nothing else on the cardholder changed meanwhile.
- LoopRefinement.CycleTakesRow: a completed cycle whose call for the pass, if it makes one, is answered; an unanswered call is left to the next cycle. Not a dry run, and with write-back and status supported, as the Millennium adapter has them.
- CycleFlush.CollectRows: of a person two of whose pending changes share a slot it says only that each cell is one of theirs; the later one's cells win in the code.
- Flush.ImportCreditsExactlyTheLog: a pair's first card is taken whenever its second is, so that dropping the trigger record on any taken insert loses nothing.
- ReadingStability.ReadingStabilises: each slot listed once and each card in one slot, and each recorded card of a person recorded once.
- Rc4.PayloadRoundTrip: the replacement of non-ASCII bytes by the lenient decoder is not modelled; such a body opens as `NotAscii`.
- Rc4.Decrypt: the decimal digits are those of Unicode 15.0.
- HtmlForm.MultipartReadsBack: on characters; UTF-8 is injective and keeps the delimiter's characters. The random boundary is a parameter.
- Migration.Database.Ensure: a transaction is a commit or nothing; rows are a sequence, the page reads a map.
- Ledger keys are pairs; splitting them on the first ":" is not modelled, person ids being assumed to hold none.
