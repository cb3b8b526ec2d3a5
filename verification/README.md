# ComicVine cache proxy: verified model

The proxy answers ComicVine requests from a local database and asks ComicVine only within hourly
quotas. This project models the parts whose correctness shows only over whole runs and proves them
with Dafny 4.11: `dafny verify dfyconfig.toml`.

SQLite tables are maps or sequences and a committed method is one step. ComicVine (`Upstream.dfy`) is a
fixed catalogue that may refuse or fail any request (`fate`) and answers honestly otherwise; upstream edits happen
between sync runs. Clocks are arbitrary non-decreasing numbers. Code between two awaits is atomic;
interleavings happen at sleeps and upstream calls. Objects that update fields are classes; each of
their methods is proved against a function on values, what the code promises is proved about those
functions over all runs, and contracts and lemmas also state directly, without those functions, what each
operation leaves in the rows it writes.

| file | models |
|---|---|
| `RateWindow.dfy`, `CvClient.dfy`, `Admission.dfy` | hourly windows, pacer, cooldown and state file of the client; every interleaving of its callers over restarts |
| `Sync.dfy`, `SyncHistory.dfy`, `Timestamps.dfy` | the sliced, paged watermark sync; every history of runs, rewinds and edits; timestamps as text |
| `IssueStore.dfy`, `Backfill.dfy` | list and detail responses merged into one issue row; the budgeted loop that fetches missing details |
| `VolumeIssues.dfy` | local answers for a volume's issues, and when they may be trusted |
| `SearchPages.dfy`, `SupersetSearch.dfy` | paged search with background fill; searches answered from broader ones |
| `Pending.dfy` | the retry queue and its worker |
| `Jobs.dfy` | job runs and their history over crashes and restarts |
| `Publishers.dfy`, `Purge.dfy` | block lists; the batched purge against the one delete, beside other writers |
| `ImageCache.dfy`, `Covers.dfy` | shared image fetches; all-or-nothing cover hashing |

What the proofs found where the code does less than its comments or names suggest:

- The hourly limit survives a restart exactly when the loaded state file misses no slot that is still
  active. A save that fails is only logged, so a failed save or an unreadable file can let an endpoint
  exceed its limit (`Admission.RestartIsSafeExactly`, `Admission.UnsavedSlotIsForgotten`).
- A scheduled sync reads 45 day slices from an hour before its watermark. If no row newer than the
  watermark lies in them, the watermark stays, and every later run reads the same slices again
  (`Sync.CleanRunMovesExactly`, `Sync.HoleStopsSync`).
- A rewind of the watermark made while a run is in flight is overwritten if that run stores something
  newer than the watermark it began from, for a run that fails nowhere exactly if such a row lies in its
  reach (`SyncHistory.RewindDuringRun`, `SyncHistory.RewindSurvivesExactly`, `SyncHistory.RewindIsLost`).
- A purge batch reads its IDs before its transaction starts. An issue moved to another volume in
  between is deleted with the batch (`Purge.BatchLosesExactly`).
- A stored volume that is remembered for another publisher than the one stored for it, because it moved
  upstream, is forgotten when that other one comes off the list, although the stored one is still blocked
  (`Publishers.PutKeepsAllRememberedExactly`, `Publishers.MovedVolumeIsForgotten`).
- Cover hashing takes the newest issue first and stops at a server error, so one image that always
  answers 5xx holds up every older issue; and after such a stop the reported counts include covers
  whose rows were dropped (`Covers.NewestBlocksTheRest`, `Covers.OneImageHoldsUpTheRest`,
  `Covers.CountsAreRowsExactly`, `Covers.HashIsCountedAndDropped`).
- The issue detail backfill counts an issue as updated even when the store refuses its details, because
  the cutoff year was raised after it was stored; it stays in the backlog and later runs ask again, if
  its batch admits it: the year floor of the backfill is below the cutoff, or the issue was stored undated
  (`Backfill.RunShrinksBacklog`, `Backfill.SameBacklogExactly`, `Backfill.RefusedIssueStays`).
- A queued `volume_issues` fetch leaves the queue when its refresh fails upstream or is skipped: "skipped"
  counts as done. Everything else leaves by an answer or its fifth failure only
  (`Pending.PromiseKeptExactly`, `Pending.ReplyRemovesExactly`, `Pending.FailedRefreshIsForgotten`).
- A volume's local listing is cut at 10,000 issues, and a lookup misses the matching ones behind that
  (`VolumeIssues.LocalAnswerIsUpstream`, `VolumeIssues.WholeVolumeAnswerExact`,
  `VolumeIssues.CutIssueIsMissed`).
- A search's background fill hangs on its response. If that response fails after the fill was handed out,
  the search stays marked as being filled and no later one fills it
  (`SearchPages.DroppedFillBlocks`, `SearchPages.DroppedFillIsLost`).
- An hourly limit below 1, which the settings accept, makes the limiter raise on an empty window instead
  of sleeping (`CvClient.SlotRaisesExactly`, `CvClient.RetryAfterRaisesExactly`,
  `CvClient.LimitZeroRaises`); nothing is ever granted then (`Admission.NothingGrantedBelowOne`).

## Model

| member | source | states |
|---|---|---|
| CvClient.KeyOfPath | src/cvproxy/cv_client.py:131-141 | "issue/" and every "issue/4000-n/", with or without slashes in front, share one window, so a budget check on the resource sees every call below it |
| CvClient.RetryAfterIsExact | src/cvproxy/cv_client.py:227-241 | for a limit of at least 1, a sorted window of any length (also longer than the limit) and any cooldown, a call may go at exactly the times from now + the answer on: the cooldown is over and fewer than the limit are active |
| CvClient.GuardedCallNeverSleeps | src/cvproxy/cv_client.py:157-183 | a call made when `retry_after` is 0 takes its slot in the hourly limiter without sleeping, however the clock moves in between |
| CvClient.TakeSlotWindow | src/cvproxy/cv_client.py:157-170 | one pass of the hourly limiter keeps the window sorted, drops exactly the stamps that no longer count, adds a stamp exactly below the limit and touches no other window |
| CvClient.SleepIsExact | src/cvproxy/cv_client.py:157-183 | a caller sleeps until the first active stamp expires and no longer; if exactly the limit were active, the slot is granted from the end of that sleep on and at no earlier time |
| CvClient.RefusalIsWaitedFor | src/cvproxy/cv_client.py:185-190 | after a refusal every endpoint waits at least the seconds it names, and longer only if it had to wait longer before |
| CvClient.HourlyCallsAreActive | src/cvproxy/cv_client.py:243-251 | the calls counted are the stamps of the last hour, equal ones as often as they occur |
| CvClient.SavedHoldsActive | src/cvproxy/cv_client.py:209-225 | the file holds every window, and of its stamps exactly those of the last hour, and the cooldown |
| CvClient.LoadedWindow | src/cvproxy/cv_client.py:192-207 | whatever order a file has its stamps in, a process reads back a sorted window of exactly those of the last hour, as often as they occur |
| CvClient.LoadedInOrder | src/cvproxy/cv_client.py:192-207 | a file in order is read back in its order |
| CvClient.SlotRaisesExactly | src/cvproxy/cv_client.py:157-170 | the limiter raises if and only if the limit is below 1 and no active stamp is left to wait for; with such a limit it never grants |
| CvClient.RetryAfterRaisesExactly | src/cvproxy/cv_client.py:234-241 | `retry_after` raises if and only if the limit is below 1 and the window holds any stamp; with such a limit and no stamp it gives what is left of the cooldown |
| CvClient.LimitZeroRaises | src/cvproxy/cv_client.py:157-170 | with the limit 0 the first guarded call is told to go ahead and raises in the limiter |
| CvClient.LoadAfterSave | src/cvproxy/cv_client.py:192-225 | save then load keeps every stamp still active at load time, in order, and the cooldown |
| CvClient.LoadedIsValid | src/cvproxy/cv_client.py:192-207 | windows are sorted after loading any file, also an unordered one, with the file's cooldown; without a file there are no windows and no cooldown |
| CvClient.ReservationsSpaced | src/cvproxy/cv_client.py:119-129 | send times reserved by any number of callers are at least 60/rate apart in reservation order |
| CvClient.PacerBound | src/cvproxy/cv_client.py:119-129 | at most `rate` reserved send times lie in any 60 seconds |
| CvClient.Client.TryHourlySlot | src/cvproxy/cv_client.py:157-183 | prunes exactly the leading expired stamps in place; below the limit the new stamp joins the rest and is saved; at the limit the caller sleeps until the front stamp is an hour old, for a sorted window exactly until the first active stamp expires |
| CvClient.Client.StartCooldown | src/cvproxy/cv_client.py:185-190 | the cooldown lasts at least the seconds of the refusal, is never shortened and never longer than the later of the two; a numeric Retry-After replaces the default (section 10.2.3 of RFC 9110); the state is saved |
| CvClient.Client.SaveState | src/cvproxy/cv_client.py:209-225 | the file holds the stamps of the last hour and the cooldown, or stays as it was when writing fails |
| CvClient.Client.constructor | src/cvproxy/cv_client.py:192-207 | a new process starts from the file, or from nothing if there is none or it is unreadable |
| CvClient.Client.WaitForRateLimit | src/cvproxy/cv_client.py:119-129 | reserves the earliest send time that is not before now and one interval after the last reservation, and waits exactly until then |
| CvClient.Client.AskRetryAfter | src/cvproxy/cv_client.py:227-241 | the same about the client's own state |
| Admission.NoHourExceedsItsBounds | src/cvproxy/cv_client.py:143-225 | over every interleaving of callers, refusals, sleeps and restarts that find a covering state file: in every hour of every endpoint all slots are at most the limit, the backfills' at most 120, and those of backfills and pending worker at most max(120, limit - 30) |
| Admission.FaithfulFileKeepsBounds | src/cvproxy/cv_client.py:192-225 | when every write of the state file succeeds and every restart can read it, the bounds hold with no further assumption |
| Admission.RestartIsSafeExactly | src/cvproxy/cv_client.py:192-225 | a restart keeps the bounds for every later run if and only if no slot missing from the loaded file is still active when calls can resume |
| Admission.LostGrantBreaksBound | src/cvproxy/cv_client.py:192-225 | otherwise it constructs a run after the restart in which an endpoint exceeds its limit |
| Admission.AskKeepsInv | src/cvproxy/scheduler.py:79-91 | the check of each class of caller and the slot taken after it keep the invariant from which the bounds follow |
| Admission.AskIsExact | src/cvproxy/cv_client.py:255-285 | for a limit of at least 1, which calls get through and what they get: a backfill below 120 calls and with no live request queued, a pending item 30 below the limit, pending and live ones not before `retry_after`, nobody during the cooldown; then a slot exactly if fewer than the limit count, recorded with its stamp and caller, else a sleep; a call that does not get through changes nothing |
| Admission.AdmittedExactly | src/cvproxy/scheduler.py:79-91 | for a limit of at least 1, the checks of each class of caller, in terms of the stamps of the last hour and the cooldown |
| Admission.WakeIsExact | src/cvproxy/cv_client.py:157-183 | for a limit of at least 1, a sleeper that wakes takes a slot exactly if fewer than the limit count, and goes back to sleep otherwise; it looks at no cooldown and no budget |
| Admission.RefusalIsExact | src/cvproxy/cv_client.py:185-190 | a refusal grants nothing, keeps every window and extends the cooldown to what it names at least |
| Admission.AttemptIsExact | src/cvproxy/cv_client.py:157-183 | the limiter grants, puts to sleep and writes the file exactly as the stamps of the last hour say |
| Admission.WakeKeepsInv | src/cvproxy/cv_client.py:157-183 | so does a caller that slept in the limiter and does not look at the cooldown again |
| Admission.RefusalKeepsInv | src/cvproxy/cv_client.py:185-190 | so does a refusal by ComicVine and the save it makes |
| Admission.RestartKeepsInv | src/cvproxy/cv_client.py:192-207 | so does a covered restart |
| Admission.GrantKeepsBounds | src/cvproxy/pending.py:124-133 | a slot taken below the threshold of its class of callers keeps all three bounds in every hour |
| Admission.RunKeepsInv | src/cvproxy/cv_client.py:143-225 | the invariant over whole runs |
| Admission.NothingGrantedBelowOne | src/cvproxy/cv_client.py:157-183 | with a limit below 1 no run ever grants a slot |
| Admission.UnsavedSlotIsNotCovered | src/cvproxy/cv_client.py:209-225 | a reachable state in which a restart loses a slot: limit 1, one call whose slot is not saved |
| Admission.UnsavedSlotIsForgotten | src/cvproxy/cv_client.py:192-225 | the run from there that grants two slots within three seconds |
| Sync.SyncWindow | src/cvproxy/scheduler.py:1047-1116 | for every pattern of failures: the rows stored are exactly those handed over; every row dated before `latest` is among them and none is from outside the window; complete exactly when the stop reason is none; a stop reason names the first request that was not answered; a clean run stores every row within reach of its slices |
| Sync.SyncSlice | src/cvproxy/scheduler.py:1075-1112 | paging one slice stores a prefix of its rows, all of them when it ends without a failure, and ends; it asks for no page more than the slice fills, and after a failure exactly the pages before it are stored |
| Sync.StorePage | src/cvproxy/scheduler.py:1020-1037 | under every ID the last row of the page with it is stored, and an ID the page does not name keeps its row |
| Sync.SyncIncremental | src/cvproxy/scheduler.py:1119-1162 | if a row newer than the watermark was stored, the newest date stored becomes the watermark, else it stays; with no failed request the rows stored are exactly those dated from an hour before the watermark (72 hours before now without one) to a day after now, but at most 45 days, and the run is complete exactly if that leaves nothing |
| Sync.CleanRunMovesExactly | src/cvproxy/scheduler.py:1119-1162 | a failure-free run moves the watermark if and only if an upstream row newer than it lies in the 45 days a run can reach |
| Sync.HoleStopsSync | src/cvproxy/scheduler.py:1017-1017 | with a hole of 46 days after the watermark, every failure-free run, whenever it runs, ends with the watermark it began with (a concrete catalogue; the general condition is CleanRunMovesExactly) |
| Sync.PartialRun | src/cvproxy/scheduler.py:1064-1116 | a run stopped at any request has stored every row dated strictly before `latest`; rows tied with it are left to the overlap |
| Sync.RewindSync | src/cvproxy/scheduler.py:1175-1187 | a rewind stores the earlier of watermark and target, and the target without a watermark |
| SyncHistory.NoGapEver | src/cvproxy/scheduler.py:1047-1187 | over every history of runs (stopped anywhere, capped or crashed), rewinds, other writers and upstream edits stamped at most an hour behind the watermark: every upstream row between the floor and watermark minus one hour is stored in its current version |
| SyncHistory.CompleteRunCatchesUp | src/cvproxy/scheduler.py:1119-1162 | after a complete run the store mirrors upstream from the floor to the end of its window |
| SyncHistory.StepKeepsInv | src/cvproxy/scheduler.py:1119-1187 | each event keeps the invariant behind gap-freedom, also a run in flight while the watermark is rewound |
| SyncHistory.RunKeepsInv | src/cvproxy/scheduler.py:1119-1187 | the invariant over whole histories |
| SyncHistory.WatermarkDirection | src/cvproxy/scheduler.py:1148-1150 | a run never lowers the watermark it began from and a rewind never raises it |
| SyncHistory.EndMovesMark | src/cvproxy/scheduler.py:1148-1150 | in every state: a run that stored a row newer than the watermark it began from makes the newest date it stored the watermark, any other leaves it as it finds it; under every ID the last row handed over is stored |
| SyncHistory.FloorIs | src/cvproxy/scheduler.py:1131-1136 | where the gap-free range begins: 72 hours before the first run, or an hour before the target of the first rewind; a later run lowers it to its own start at most |
| SyncHistory.RewindDuringRun | src/cvproxy/scheduler.py:1175-1187 | a rewind made while a run is in flight survives the run if and only if the run stores nothing newer than the watermark it began from |
| SyncHistory.RunIsBeginEnd | src/cvproxy/scheduler.py:1119-1162 | what `SyncIncremental` ensures is one Begin and End of the history |
| Timestamps.TextOrderIsTimeOrder | src/cvproxy/scheduler.py:1003-1004 | comparing two CV timestamps as text is comparing the times, for every pair of valid dates of the years 0 to 9999, written with four digits |
| Timestamps.FormatIsEarlier | src/cvproxy/scheduler.py:1003-1004 | the same against the field-by-field order of dates |
| Timestamps.PadOrder | src/cvproxy/scheduler.py:1003-1004 | zero-padded numbers of one width compare like the numbers |
| Timestamps.ParseFormat | src/cvproxy/scheduler.py:1131-1134 | a watermark that was written is read back as the same time |
| Timestamps.CalendarIsGregorian | src/cvproxy/scheduler.py:1131-1134 | the dates meant are those of the Gregorian calendar, for every year and month |
| SyncHistory.RewindSurvivesExactly | src/cvproxy/scheduler.py:1175-1187 | for a run that fails nowhere: the rewind survives if and only if no upstream row newer than the watermark the run began from lies in the run's reach |
| SyncHistory.RewindIsLost | src/cvproxy/scheduler.py:1175-1187 | a rewind to 0 that a run in flight overwrites, in a state reached from an empty one by a rewind, an edit and the start of a run |
| SyncHistory.FloorOnlyFalls | src/cvproxy/scheduler.py:1131-1136 | no event raises the floor of the gap-free range, save the end of a run begun without a watermark |
| SyncHistory.FloorNeverRises | src/cvproxy/scheduler.py:1131-1136 | so, once a watermark exists and no older run is in flight, the floor never rises over any history |
| IssueStore.RowTellsHistory | src/cvproxy/db.py:1859-1921 | over every history of upserts, marks and deletions: volume, date and list fields are those of the last accepted response since the last deletion; the detail columns are the non-empty credits of the last response with credits, stamped with its time if and only if no response since then carried another date_last_updated, and empty without one; the row is marked lost exactly if that came after the last response |
| IssueStore.IssueTable.UpsertIssue | src/cvproxy/db.py:1859-1921 | refuses a row without ID, before the cutoff year or of a blocked volume; else exactly one row changes: the list columns are replaced, credits replace the details (empty ones store nothing) and stamp them, and without credits the details stay and their stamp only while the date does; a lost mark goes |
| IssueStore.IssueTable.InsertNewIssues | src/cvproxy/db.py:1381-1400 | leaves every stored row alone; every other row comes from an accepted issue of the page, of repeated IDs the last; counts the unknown IDs |
| IssueStore.PageIsStored | src/cvproxy/db.py:1381-1400 | every accepted issue of a page is stored afterwards |
| IssueStore.PageLeavesAlone | src/cvproxy/db.py:1381-1400 | rows that were stored when the page arrived do not change |
| IssueStore.IssueTable.MarkBackfillMissing | src/cvproxy/db.py:1761-1776 | marks a stored row and changes nothing else |
| IssueStore.IssueTable.Remove | src/cvproxy/db.py:2162-2163 | takes the row and its history away |
| IssueStore.IssueTable.IssueNeedsDetail | src/cvproxy/db.py:1923-1928 | true exactly for a stored issue without a detail response since which the date has stayed the same |
| IssueStore.RowHasDetail | src/cvproxy/db.py:1893-1921 | the detail part of that, over every history |
| IssueStore.RowHasMark | src/cvproxy/db.py:1761-1776 | the lost mark part of that |
| Backfill.BackfillIds | src/cvproxy/scheduler.py:740-803 | one run over a batch: it stops before the first request the budget check forbids or at the first refusal, writes exactly what the replies before that bring, counts each of them once, and names why it stopped |
| Backfill.StoreReply | src/cvproxy/scheduler.py:782-790 | an issue is merged into its row if the store accepts it, a lost one marked, a failure changes nothing and is counted |
| Backfill.RunShrinksBacklog | src/cvproxy/scheduler.py:740-803 | a run takes off the backlog exactly the issues ComicVine has lost and those whose details the store accepts; failed ones stay, and so do refused ones although they count as updated |
| Backfill.SameBacklogExactly | src/cvproxy/db.py:1930-1951 | the next run finds the same backlog if and only if every reply failed or was refused by the store |
| Backfill.RefusedIssueStays | src/cvproxy/scheduler.py:785-787 | an issue of 1990 with the cutoff raised to 2000: fetched, counted as updated, refused, still in the backlog |
| Backfill.TurnShrinksBacklog | src/cvproxy/scheduler.py:782-787 | what one reply does to the backlog |
| VolumeIssues.VolumeCache.TrustedIsWhole | src/cvproxy/db.py:1303-1326 | whenever a volume is trusted, by a fresh sync mark or by its count, every upstream issue of it is stored |
| VolumeIssues.VolumeCache.TrustedExactly | src/cvproxy/db.py:1303-1326 | a volume is trusted if and only if its recorded count is not 0 and every upstream issue of it is stored, or its list was synced less than 24 hours ago |
| VolumeIssues.CountedPartIsWhole | src/cvproxy/db.py:1317-1326 | as many distinct upstream issues stored as the volume has are all of them |
| VolumeIssues.VolumeCache.RefreshVolumeIssues | src/cvproxy/routes/api.py:1127-1161 | for every pattern of failures: `complete` only after every issue was offered to the store, and marked synced exactly then; stored rows never change; what the answered requests brought is stored; otherwise the result names the request that was refused or failed, or the volume has more than 300 issues |
| VolumeIssues.VolumeCache.FetchList | src/cvproxy/routes/api.py:1141-1158 | the paging loop: after any number of answered requests exactly their pages are stored besides what was there, all of the list when it completes, which it does only for at most 300 issues; no page past the end is asked for |
| VolumeIssues.VolumeCache.AskAndStore | src/cvproxy/routes/api.py:1143-1153 | one request; its page is stored if one comes |
| VolumeIssues.VolumeCache.MarkSynced | src/cvproxy/db.py:1373-1379 | stamps the sync mark of a volume all of whose issues were offered |
| VolumeIssues.VolumeCache.InsertNewIssues | src/cvproxy/db.py:1381-1400 | adds exactly the page's unknown issues |
| VolumeIssues.VolumeCache.StoreCount | src/cvproxy/db.py:1778-1857 | a stored volume carries upstream's count |
| VolumeIssues.LocalAnswerIsUpstream | src/cvproxy/routes/api.py:1116-1124 | for a whole volume and any number, or none: the local answer is exactly the upstream issues with that normalised number if and only if none of them is listed after the first 10,000 |
| VolumeIssues.CutIssueIsMissed | src/cvproxy/routes/api.py:1116-1124 | for every size above 10,000 a volume, wholly stored and trusted, whose lookup of number 1 misses a matching issue |
| VolumeIssues.WholeVolumeAnswerExact | src/cvproxy/routes/api.py:1116-1124 | a listing without a number is whole if and only if the volume has at most 10,000 issues |
| VolumeIssues.PaddingIsIgnored | src/cvproxy/routes/api.py:474-477 | any blanks, hash signs, blanks and zeros, in that order, in front of a digit change nothing |
| VolumeIssues.ZeroDropped | src/cvproxy/routes/api.py:474-477 | a leading zero changes nothing if and only if another digit follows |
| VolumeIssues.CaseIsIgnored | src/cvproxy/routes/api.py:474-477 | numbers that differ only in the case of letters are one number |
| VolumeIssues.PlainStaysPlain | src/cvproxy/routes/api.py:474-477 | a number without capitals, blanks or hashes at its ends and padding zeros stays as it is, so different plain numbers stay different |
| VolumeIssues.MatchingInOrder | src/cvproxy/routes/api.py:1116-1124 | the answer keeps the order of the listing and each matching row as often as it is listed |
| VolumeIssues.OneRefreshPerTtl | src/cvproxy/routes/api.py:1135-1137 | requests for one volume, however they queue for its lock, cause at most one successful refresh per TTL |
| VolumeIssues.RefreshIsTurns | src/cvproxy/routes/api.py:1135-1161 | what one refresh ensures about the sync mark is one check under the lock and, unless the list is trusted, one mark or giving up |
| VolumeIssues.TurnsKeepInv | src/cvproxy/routes/api.py:1135-1161 | the invariant of the lock behind that |
| SearchPages.FetchSearchPages | src/cvproxy/routes/api.py:588-622 | for every pattern of failures it returns the next stretch of upstream's list, cut short only by a failure and then right after the pages that were answered, and the total once known; after the first page it asks for none past the end |
| SearchPages.SearchEntry.FetchAndStore | src/cvproxy/routes/api.py:792-843 | the entry stored is the pages that were answered, with upstream's length, also when a later page failed; the background task handed out continues exactly after it; none is needed when nothing is left |
| SearchPages.SearchEntry.FillSearchCache | src/cvproxy/routes/api.py:646-670 | stores the list up to the last page or up to the page that failed, changes nothing if no page came, and clears the in-progress mark in every case |
| SearchPages.OneFillAtMost | src/cvproxy/routes/api.py:832-843 | over every interleaving of searches, fills and failing responses at most one background fill of a search is pending, and what is stored is a prefix of upstream's list with its length |
| SearchPages.StepKeepsInv | src/cvproxy/routes/api.py:832-843 | each of these steps keeps that |
| SearchPages.HandsOutExactly | src/cvproxy/routes/api.py:832-838 | a fill is handed out if and only if all pages needed came, more are left upstream and under the cap, and none is in progress |
| SearchPages.DroppedFillBlocks | src/cvproxy/routes/api.py:838-843 | a fill whose response failed leaves its mark for good: over every later history nothing is filled again |
| SearchPages.DroppedFillIsLost | src/cvproxy/routes/api.py:838-843 | with more than 100 hits, two searches of one page, the first response failing: the second page is never fetched |
| SearchPages.SplitSearch | src/cvproxy/routes/api.py:792-843 | pages 1..k and a background fill of k+1..max store the list that one fetch of 1..max stores; it is complete if and only if the page cap does not cut it |
| SearchPages.NeededPagesCoverSlice | src/cvproxy/routes/api.py:793-795 | the pages waited for cover the requested slice, or are as many as the cap allows |
| SearchPages.FewestPagesAreNeeded | src/cvproxy/routes/api.py:793-795 | one page fewer would not cover the slice |
| SearchPages.CompleteMeansNothingMissing | src/cvproxy/db.py:1681-1683 | `len(results) >= total` says that nothing is missing, both ways |
| SupersetSearch.ContainsTransitive | src/cvproxy/db.py:1653-1663 | part of a part is a part, for any strings |
| SupersetSearch.DerivedRefinesDirect | src/cvproxy/db.py:1684-1688 | an answer derived from a complete base is complete, leaves out no matching catalogue item, holds only matching items of its base and is exact if the base is |
| SupersetSearch.FilterInOrder | src/cvproxy/db.py:1684-1688 | a derived answer keeps the order and the repetitions of its base |
| SupersetSearch.UsableExactly | src/cvproxy/db.py:1650-1683 | a cached search is usable if and only if it has all its results, asked for the same resources, and its shorter query, without wildcards, stands anywhere in the new one |
| SupersetSearch.EveryEntryIsSound | src/cvproxy/db.py:1631-1718 | over every run of direct searches, derived entries (also of derived entries) and evictions, every complete entry holds all catalogue items whose name contains its query |
| SupersetSearch.SearchCache.FindSuperset | src/cvproxy/db.py:1650-1691 | returns the filtered results of the first usable candidate in the database's order, and nothing only if no complete search of the same resources has a query that stands in the new one |
| SupersetSearch.SearchCache.ServeFromSuperset | src/cvproxy/routes/api.py:744-758 | stores what it found so the next request hits directly; serves nothing only if no candidate is usable or the one found repeats an ID |
| SupersetSearch.SearchCache.PutDirect | src/cvproxy/db.py:1693-1718 | replaces the entry of one search and no other |
| SupersetSearch.SearchCache.Evict | src/cvproxy/db.py:1693-1718 | takes entries away and changes no other |
| Pending.QueueIsPerItem | src/cvproxy/db.py:1507-1559 | over every log of adds and outcomes the queue holds each item at most once with fewer than five failures, and treats it as if it were alone |
| Pending.ReplyRemovesExactly | src/cvproxy/pending.py:38-98 | which replies take a queued item off: an answer, the fifth failed reply, or the failed or skipped refresh of a volume; the reply does what the queue promises if and only if it is not that refresh, or it would be the fifth failure anyway |
| Pending.PromiseKeptExactly | src/cvproxy/pending.py:61-66 | over every history of requests and replies an item's count is the promised one at every moment if and only if no failed or skipped volume refresh is reported for it while it is queued |
| Pending.QueueIsAsPromised | src/cvproxy/pending.py:38-98 | items of the other five kinds leave only when answered or at their fifth failed reply, over every history |
| Pending.FailedRefreshIsForgotten | src/cvproxy/pending.py:61-66 | a volume refresh queued once that fails upstream is gone after that one try |
| Pending.KeptUntilFifthFailure | src/cvproxy/db.py:1543-1559 | an item that gets neither an answer nor such a refresh stays queued until its fifth failed reply, with exactly its failed replies counted |
| Pending.StaysUntilFifthFailure | src/cvproxy/db.py:1549-1559 | in terms of what the worker decides: an item never settled as done stays queued until its fifth failure; refusals and repeated requests change nothing |
| Pending.LeavesWhenEarned | src/cvproxy/db.py:1543-1559 | in terms of what the worker decides: it leaves if and only if it is settled as done or fails for the fifth time |
| Pending.RepeatKeepsPlace | src/cvproxy/db.py:1507-1516 | asking again for a queued item leaves the whole queue as it is |
| Pending.NewGoesLast | src/cvproxy/db.py:1507-1534 | a new item goes behind every item already queued |
| Pending.PendingQueue.PendingAdd | src/cvproxy/db.py:1507-1516 | appends unless the item is queued |
| Pending.PendingQueue.PendingDone | src/cvproxy/db.py:1543-1547 | removes the item |
| Pending.PendingQueue.PendingFailed | src/cvproxy/db.py:1549-1559 | counts the failure of that item alone and drops it at the fifth |
| Pending.PendingQueue.ProcessPending | src/cvproxy/pending.py:111-151 | one pass, whatever may be asked, comes back or is queued meanwhile: the oldest items are listed, each is settled in turn, fetched counts the answered ones (and the mistaken refreshes), failed the other replies that are no refusal, the rest is skipped, and the stop reason says exactly why nothing was fetched |
| Pending.PassLeavesItem | src/cvproxy/pending.py:124-142 | a pass leaves an item's count alone unless it gets an answer or an error for it |
| Pending.OrderIsKept | src/cvproxy/db.py:1507-1534 | two items that stay queued keep their order, whatever is queued, settled or counted meanwhile |
| Pending.PassKeepsOrder | src/cvproxy/pending.py:124-142 | so do two items that stay queued from turn to turn of a pass |
| Pending.PassSettlesItem | src/cvproxy/pending.py:133-142 | a pass counts one failure of an item or takes it off, exactly once, and says by the reply which; it keeps the promise except for the failed or skipped refresh of a volume |
| Jobs.HistoryTellsTheTruth | src/cvproxy/jobs.py:396-425 | over every run of starts, fires, skips, ends, crashes, shutdowns and restarts: one active run per job at most; a stored row says running only for an active run of this process or one whose last write failed; an ended run shows exactly if its job keeps idle runs or it was not idle |
| Jobs.StatusMovesOnce | src/cvproxy/jobs.py:747-793 | a step moves a stored status at most from running to a final one, and never brings a dropped run back |
| Jobs.FinalStaysFinal | src/cvproxy/jobs.py:396-425 | a final stored status is final over every later run |
| Jobs.StartupClearsRunning | src/cvproxy/jobs.py:628-635 | after a start-up no stored row says running |
| Jobs.CrashIsRecorded | src/cvproxy/jobs.py:413-425 | a run with a stored row that a crash cuts off is recorded as interrupted after the next start-up that does not prune it |
| Jobs.StatusTells | src/cvproxy/jobs.py:58-74 | which endings and stop reasons each final status stands for |
| Jobs.OtherStepsAre | src/cvproxy/jobs.py:795-821 | a skipped start is stored as skipped and no other row changes; pruning drops exactly the rows begun before the cutoff; a crash changes no row |
| Jobs.StepKeepsInv | src/cvproxy/jobs.py:628-802 | each step keeps the invariant |
| Jobs.RunKeepsInv | src/cvproxy/jobs.py:628-802 | the invariant over whole runs |
| Jobs.JobRunner.FindRunning | src/cvproxy/jobs.py:648-649 | finds the job's active run, or says truly that there is none |
| Jobs.JobRunner.SaveRun | src/cvproxy/jobs.py:823-827 | writes the row, or leaves history as it was when writing fails |
| Jobs.JobRunner.BeginRun | src/cvproxy/jobs.py:718-723 | makes the run active and durable before its task starts |
| Jobs.JobRunner.EndRun | src/cvproxy/jobs.py:747-793 | stores the final row unless the job drops idle runs and this was one |
| Jobs.JobRunner.StartManual | src/cvproxy/jobs.py:658-678 | says which: refuses an unknown, unstartable, disabled or running job or bad parameters, in that order, and begins a run exactly otherwise |
| Jobs.JobRunner.FireScheduled | src/cvproxy/jobs.py:680-696 | begins a run, or stores a skipped one, overlap before disabled |
| Jobs.JobRunner.FinishRun | src/cvproxy/jobs.py:725-793 | the run stops being active and its row says how it ended: an error, a cancellation or what its stop reason stands for; an idle end of a job that drops those, a failed write or a closed history changes no row; no other run is touched |
| Jobs.JobRunner.ShutdownRunner | src/cvproxy/jobs.py:637-645 | every active run whose write succeeds is stored as failed, no other row changes, then history is closed |
| Jobs.JobRunner.StartupRunner | src/cvproxy/jobs.py:628-635 | rows left running become failed; exactly the rows begun before the cutoff are gone |
| Publishers.ListsHoldOverHistories | src/cvproxy/db.py:1979-2085 | over every sequence of edits, imports, seeds, upserts and deletions: what is remembered is remembered for a blocked publisher, and if no volume changes its publisher every stored volume of a blocked publisher is remembered |
| Publishers.ChangeKeeps | src/cvproxy/db.py:1997-2085 | each change keeps both |
| Publishers.PutKeepsAllRememberedExactly | src/cvproxy/db.py:2033-2050 | without the assumption on volumes, putting a publisher on or off a list keeps the second if and only if no stored volume of another blocked publisher is remembered for it |
| Publishers.MovedVolumeIsForgotten | src/cvproxy/db.py:2033-2050 | the sequence of block, move, block and unblock after which a blocked publisher's stored volume is forgotten |
| Publishers.PutKeepsOnlyBlocked | src/cvproxy/db.py:2033-2050 | nothing stays remembered for a publisher that is not blocked |
| Publishers.PutAllLists | src/cvproxy/db.py:2011-2031 | after a batch every publisher in it is where it was put and no other has moved |
| Publishers.PutAllRemembered | src/cvproxy/db.py:2033-2050 | what a batch does to a remembered volume: untouched for another publisher, forgotten when its own is put anywhere but on the blocklist, remembered when its stored publisher is blocked |
| Publishers.ImportIsMemory | src/cvproxy/db.py:2011-2031 | the same for an import: newly remembered are exactly the stored volumes of the publishers blocked, forgotten those of the publishers allowed |
| Publishers.PublisherLists.SetPublisherList | src/cvproxy/db.py:1997-2009 | the publisher is on that list only and no other moves; remembered are exactly the volumes remembered for others and, if it is blocked now, its stored ones |
| Publishers.PublisherLists.ImportPublisherList | src/cvproxy/db.py:2011-2031 | with replace the list is exactly the file's publishers, without it also those it held; nobody else moves; the count is of those taken off |
| Publishers.PublisherLists.SeedPublisherLists | src/cvproxy/db.py:2052-2076 | fills the lists the first time only, moves no listed publisher, and remembers besides what was remembered exactly the stored volumes of blocked publishers |
| Publishers.PublisherLists.UpsertVolume | src/cvproxy/db.py:1797-1804 | a remembered volume changes nothing; one of a blocked publisher is only remembered, for it; any other is stored with its publisher; the lists never change |
| Publishers.PublisherLists.LoadPublisherLists | src/cvproxy/db.py:1979-1985 | the sets in memory mirror the tables |
| Publishers.PublisherLists.ListsAreDisjoint | src/cvproxy/db.py:1979-1985 | no publisher is allowed and blocked |
| Publishers.PublisherLists.DeleteVolumes | src/cvproxy/db.py:2172-2178 | deleting volume rows keeps both invariants |
| Purge.Database.PurgeBlocked | src/cvproxy/db.py:2127-2181 | for every batch size but 0 that SQLite can bind and every choice of rows per batch: exactly the rows of issues in blocked volumes, their covers and cached responses, and the blocked volumes with their sync marks and cached responses are gone, and every other row is as it was; beside other writers the same outside the issues they name; the counts are the rows removed; a batch size of 0 removes nothing |
| Purge.Database.PurgeIssues | src/cvproxy/db.py:2159-2169 | the first loop stops with no blocked issue left; it takes away blocked issues only, all but those others wrote meanwhile, and the covers left are exactly those of issues it did not take |
| Purge.Database.PurgeVolumes | src/cvproxy/db.py:2170-2178 | the second does so for volumes, their sync marks and cached responses |
| Purge.Database.PurgeBatch | src/cvproxy/db.py:2163-2167 | one batch, with commits by others before and after its transaction |
| Purge.Database.PurgeVolumeBatch | src/cvproxy/db.py:2174-2178 | the same for volumes |
| Purge.Database.DeleteIssues | src/cvproxy/db.py:2164-2167 | exactly the rows of the given issues, their covers and their cached responses are gone; counts each kind |
| Purge.Database.DeleteVolumes | src/cvproxy/db.py:2175-2178 | exactly the rows of the given volumes, their sync marks and their cached responses are gone; counts them |
| Purge.Database.OthersWrite | src/cvproxy/db.py:1873-1875 | each issue ends with the volume of the last upsert of it that does not name a blocked volume; without one it stays |
| Purge.Select | src/cvproxy/db.py:2147-2151 | any rows of the work, at most the batch size, all of them for a negative one |
| Purge.UpsertsNeverAddWork | src/cvproxy/db.py:1873-1875 | interleaved upserts never enlarge the remaining work and only write the issue rows they name |
| Purge.UpsertsOnAllowed | src/cvproxy/db.py:1873-1875 | what upserts leave outside the blocked volumes depends only on what was there before |
| Purge.BatchLosesExactly | src/cvproxy/db.py:2159-2167 | a batch leaves every row outside the blocked volumes if and only if no issue whose ID it read was moved out of them before its transaction |
| Purge.MovedIssueIsLost | src/cvproxy/db.py:2159-2167 | an issue that loses that race is deleted although its volume is not blocked |
| Purge.BothLoops | src/cvproxy/db.py:2158-2178 | the two loops together are the one delete |
| ImageCache.InFlightExactly | src/cvproxy/image_cache.py:127-155 | in every interleaving a URL is marked in flight exactly while a task fetches it, no two tasks fetch the same URL, and whoever waits for a fetch that is over has been released |
| ImageCache.EveryoneIsAnswered | src/cvproxy/image_cache.py:137-155 | however the pending requests go on, with failures and disconnects, they are over after as many steps as there were |
| ImageCache.SomeoneCanGoOn | src/cvproxy/image_cache.py:137-155 | while a request is pending, some pending request can take a step: no deadlock |
| ImageCache.AnswersAreLastStored | src/cvproxy/image_cache.py:78-155 | every answer, from disk, from the own fetch or after waiting, is the image stored last and not removed since |
| ImageCache.CachedIsLastStored | src/cvproxy/image_cache.py:78-125 | a lookup finds exactly that image, through stale rows and leftover files |
| ImageCache.WaitersReadTheFetch | src/cvproxy/image_cache.py:137-155 | whoever waits for a fetch that succeeded reads exactly its image, whatever else happens, unless it is removed first |
| ImageCache.FetchedOnce | src/cvproxy/image_cache.py:127-155 | an image is fetched and stored once, and at most once more for each time it was removed |
| ImageCache.StepKeepsInv | src/cvproxy/image_cache.py:127-182 | each step keeps the protocol's invariant |
| ImageCache.Cache.Lookup | src/cvproxy/image_cache.py:78-104 | finds the image or drops the row of a file that is gone |
| ImageCache.Cache.Store | src/cvproxy/image_cache.py:106-125 | file and row are replaced |
| ImageCache.Cache.GetOrFetch | src/cvproxy/image_cache.py:127-145 | up to the first await: the image if row and file are there, else a wait for the running fetch if there is one, else the marker of a new one |
| ImageCache.Cache.FinishFetch | src/cvproxy/image_cache.py:146-155 | stores and answers the image, answers nothing or fails, as the fetch ends; in every case the marker goes and the event is set |
| ImageCache.Cache.WakeUp | src/cvproxy/image_cache.py:139-140 | a released waiter answers from the cache |
| ImageCache.Cache.CleanupExpired | src/cvproxy/image_cache.py:159-182 | files and rows of the expired images go; a file that cannot be deleted loses its row all the same |
| Covers.WholeIssuesOnce | src/cvproxy/covers.py:121-171 | over every sequence of runs and deletions, whatever images fail: an issue has no rows, or one for each of its covers from a single run; none is hashed twice |
| Covers.AttemptedIsBounded | src/cvproxy/covers.py:123-125 | hashed plus failed is at most the limit or the first issue's covers |
| Covers.NewestBlocksTheRest | src/cvproxy/covers.py:121-147 | a run gets anything done if and only if no cover of the newest candidate stops it: while that keeps failing on the server no older issue is hashed |
| Covers.OneImageHoldsUpTheRest | src/cvproxy/covers.py:121-147 | one image that always answers 500: no run with any limit hashes the older issue |
| Covers.HashIsCountedAndDropped | src/cvproxy/covers.py:126-165 | an issue whose second image answers 500: for every limit one hash is counted and nothing stored |
| Covers.CountsAreRowsExactly | src/cvproxy/covers.py:126-165 | the counts equal the rows stored if and only if the run was not stopped, or stopped at the first cover of an issue |
| Covers.Database.HashCovers | src/cvproxy/covers.py:87-171 | the rows stored are the full lists of a prefix of the candidates, each with the two hashes of its image or none, never of a cover that met a connection error, a 429 or a 5xx; a run that is not stopped counts exactly its rows and leaves a candidate only if that would exceed the limit; after a stop the counts also cover the issue it was stopped in |
| Covers.WhatStops | src/cvproxy/covers.py:126-153 | a connection error, a 429 or a 5xx stops a run; other errors and unusable images do not, and the placeholder is never asked for |
| Covers.Database.HashIssue | src/cvproxy/covers.py:126-163 | one issue's rows up to the first cover that stops the run; placeholders and unusable images get no hashes |
| Covers.Database.CoverUrls | src/cvproxy/db.py:1349-1356 | the main cover first, then each other variant once |
| Covers.Finished | src/cvproxy/covers.py:121-125 | how many candidates a run finishes: the first index at which it ends, and no earlier one |
| Covers.FirstStop | src/cvproxy/covers.py:126-153 | the first cover that stops the run, none before it |

## Left out

- HTTP, routing, dashboard, authentication, XML, statistics, logging, image decoding and hashing, SQLite's own behaviour (FTS, triggers, WAL, migrations), CSV import and export, settings and summaries: input, output or library behaviour.
- Backfill: the loop is modelled for issue details; volumes and publishers run the same loop over other tables. The batch is any list of stored issues, not the newest ones in the window; other writers between two requests are not modelled. `_fetch_ids_in_batches` asks for missing IDs by the hundred and only its place among the budgeted callers of Admission is modelled.
- `_sync_recent_issues` and the release prefetch: the same paging without a watermark.
- Timestamps: years are written with four digits, as ComicVine writes them; on some platforms `strftime` does not pad years below 1000.
- Floating point: client times are reals, sync times whole seconds; `max(0.0, ...)` and sums are exact.
- Retry-After as a date: the code ignores it; `isdigit` is modelled for ASCII digits, `float` of a digit string as its value.
- Admission: the pacer is not part of the interleaving, because it only delays a call after its slot was taken; its last reservation does not survive a restart, so the 60-second bound is about one process.
- Admission: a `volume_issues` item of the pending worker may make several calls; only its first one is bounded by the worker's own check, and that one only if the refresh lock of its volume is free: otherwise the worker sleeps on the lock between its check and the call.
- Upstream edits while a window is being paged: offset paging is claimed only for a catalogue that is fixed during the run.
- Rows the store refuses by design (cutoff year, blocked volumes) count as handed over in the sync; volume listings assume cutoff 0 and an unblocked volume.
- Eviction of issues, which does not clear sync marks, is outside the volume listing model.
- The list and detail responses of volumes merge like those of issues; only the block-list part of the volume upsert is modelled.
- Publisher repair, which rewrites publishers of stored volumes, is outside the block-list histories.
- Search: names and queries are already lower-case and compared character by character; the negative cache, ranking and the empty-answer fallbacks are not modelled; the pages of one fetch are all of one upstream list.
- VolumeIssues.PaddingIsIgnored: blanks are the ASCII ones and digits and letters ASCII; Unicode digits and case are not modelled.
- Jobs: a task is cancelled only after its first step; the in-memory list of latest runs, run logs and progress are not modelled.
- Sync.SyncSlice: the inner loop of one function is a method of its own, so that each loop has its own contract.
- Covers.Database.HashIssue: the inner loop of one function is a method of its own; the delay between downloads is not modelled.
- ImageCache: URLs stand for their hashes, so two URLs with one SHA-256 are not modelled; the sliding TTL decides only which URLs are expired, which is a parameter.
- Purge: a batch larger than the number of variables SQLite binds in one statement raises; that limit is library behaviour.
- Purge: other writers are upserts of issues; volumes blocked during the purge are work for the next one. The progress callback and the pause are not modelled.
- Publishers: names of publishers on the lists are not modelled.
- Covers: the candidate query (scope, order, limit) is a parameter; of its result only that the issues are distinct, have an image and have no rows yet is used.
- SearchPages: a fetch and the storing of its pages are one step of a search's history, since nothing is awaited between the last page and the store.
