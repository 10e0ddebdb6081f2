# PlumeBot core: model and proofs

PlumeBot is a chat bot that filters messages for configured words, keeps a
window of each conversation, compresses it into summaries in the background,
decides when to answer, and lets administrators edit profiles and browse logs
while it runs. This project models the parts of it whose correctness does not
show in any single function, and proves what they are for.

`dafny verify dfyconfig.toml` checks everything; so does

    dafny verify --resource-limit 2000000 --verification-time-limit 0 --warn-contradictory-assumptions *.dfy

which bounds the work of each proof instead of its time.

## What is modelled

**The word filter** (`Words`, `Scan`, `Trie`, `Hops`, `AhoCorasick`,
`SearchCost`). `Words`
defines the plain search: smallest start, then greatest length, in the
first-listed spelling. `AhoCorasick` builds the trie, links it breadth first
taking the children of a node in any order, and scans. Two steps connect the two,
for *every* word list and text: the automaton computes the one-pass search of
`Scan`, and `Scan` says exactly which hit that search reports and when this is
the plain search's, with lower-casing free to change the lengths of words.
`Hops` counts the work along fail pointers, and `SearchCost` shows what a search
can cost.

**The memory pipeline** (`WindowSpec`, `Window`, `SummarySpec`, `Summaries`,
`Compression`, `Remembering`, `Compressor`). `Window` and `Summaries` are the
classes of the program, with arrays that are filtered in place and copied deeply,
and with their meaning on values in their contracts. `Compression` is the protocol
as a state machine, one step per critical section: messages arrive, the window
overflows, runs start, call the model, fail, fuse, trim and finish in any
interleaving, queries and writes may fail, and the process may crash at any step.
`Remembering` follows each message through the summaries: which one covers it,
and what makes it forgotten. `Compressor` is the code of one run, joined to the
steps of the protocol by `Compressor.Run`.

**Trigger control** (`ControlSpec`, `ReplyRuns`, `ControlConfig`, `Control`).
Energy with lazy recovery, cooldown, streaks, forced rest, quiet hours and the
three layers of configuration; what they guarantee over whole runs of replies;
and concurrent `OnReplied` calls under the per-session lock.

**Log paging** (`LogQuery`). The backward scan with its two early exits against
filter, stable sort and slice.

**The profile cache** (`ProfileCache`). Loads under the lock against admin
writes that reach the store first and invalidate afterwards, in any interleaving.

**The event pipeline** (`ReplyText`, `Pipeline`, `Ledger`). One message through
the middleware chain with every possible answer of every collaborator, the trace
of what was done, and what the trace says.

Time, the language model, the database, the token bucket, plugins and sending
are parameters of the operations or part of an event; a claim is about all they
could answer.

## Where code and documentation disagree

The model follows the code.

- The documentation of the matcher promises a search in time linear in the
  text. The transitions keep that promise (`AhoCorasick.Matcher.Find`). The walks
  for words do not, because there are no links from word to word: with the one
  word a^n b, the text a^n takes n(n+3)/2 nodes (`SearchCost.SearchIsQuadratic`),
  so that no constant per byte of text and words is enough
  (`SearchCost.NoLinearBound`). What does hold, for every word list and text, is
  a bound by the length of the text times one more than that of the longest word
  (`AhoCorasick.SearchIsBounded`).
- The matcher subtracts the length of the configured spelling from a position
  in the lowered text. Go's lower-casing may change byte lengths: U+212A KELVIN
  SIGN becomes "k" and is missed (`Scan.KelvinIsMissed`); U+023A grows from two
  bytes to three, and the wrong word is reported
  (`Scan.LengthenedWordIsPassedOver`). `Scan.AnswerIsRightIff`,
  `Scan.RightIffUnrivalled` and `Scan.FoundIffLastHitFits` are the exact
  conditions.
- The outcome ledger promises exactly one outcome line per message. A message
  whose caller gives up during the wait, or that cannot be stored, gets none,
  and only these (`Ledger.LedgerIsExact`).
- Energy recovery keeps the part of a minute already waited, but `OnReplied`
  sets the timestamp to the moment of the reply. That part survives a reply if
  and only if it is zero or the recovery has reached the maximum
  (`ReplyRuns.RemainderKeptIff`); a chat in which every minute sees a reply never
  recovers (`ReplyRuns.NothingRecoversUnderAMinute`).
- Quiet hours are described as strict HH:MM. `time.Parse` also takes "7:05"
  (`ControlConfig.ParseMeaning`).
- A mode that is neither "mention" nor "auto" counts as "mention" in groups, but
  is not normalised for private chats, so their replies are recorded
  (`ControlConfig.PrivateModeIsNotNormalised`).
- Numbering of summaries is described as increasing across restarts. When the
  first query of a chat after a start fails, it begins at 1 again and later
  overwrites the archive (`SummarySpec.FailedLoadOverwrites`; exact condition in
  `SummarySpec.LoadsDecide`).
- A window that overflows is said to lose no memory, because every message is in
  the database. What prompts are built from are the window and the summaries,
  and there messages are lost: those evicted while a compression is in flight
  are in no summary once more than 80 have arrived since its snapshot
  (`Compression.EvictedWereSummarised`), and a crash forgets summaries that had
  not left the hot chain, although their messages are trimmed
  (`Remembering.CrashLosesSummary`; exactly what, in
  `Remembering.WhatIsForgotten` and `Remembering.CrashKeepsIff`).
- The energy threshold is described as the level below which the bot does not
  speak. When it is set below the cost of a reply, replies need not be paid for
  in full (`ReplyRuns.PaysInFullIff`), and the bound on their number at full
  cost can fail (`ReplyRuns.BelowCostNothingIsPaid`). The bound at the lower of
  cost and threshold always holds (`ReplyRuns.Throttled`).
- The log page is described as newest first. Within a page it is; across files
  that overlap in time the page may miss newer entries
  (`LogQuery.InterleavedFilesFail`; exact condition in
  `LogQuery.PagesAreExactIff`, and for a single page in `LogQuery.PageIsExactIff`;
  an entry that occurs twice can hide the miss, `LogQuery.EqualEntriesHideIt`).
- Several "[...]:" prefixes of a reply are removed when they touch; with the
  space that the prompt itself puts after the colon, only the first goes
  (`ReplyText.SpacedTagRemains`).

## Model

The first rows are the main results; the rest are the operations and the results
they rest on, file by file.

| member | source | states |
|---|---|---|
| AhoCorasick.FindLeftmostLongest | pkg/ahocorasick/ahocorasick.go:75-116 | New then Find answers what the plain search answers if and only if the word of the leftmost-longest occurrence survives the scan, for every word list and text; always, when lower-casing keeps the lengths of the words |
| AhoCorasick.LinkFails | pkg/ahocorasick/ahocorasick.go:47-70 | whatever the order of children, every node ends up linked to the longest proper suffix of its path in the trie, and nothing but fail pointers changes |
| AhoCorasick.WorkIsLinear | pkg/ahocorasick/ahocorasick.go:22-22 | the fail-pointer work of the trie of a word list is at most the total lowered length of the words |
| SearchCost.NoLinearBound | pkg/ahocorasick/ahocorasick.go:22-22 | the search is not linear: for every k some word list and text make the walks for words look at more than k nodes per byte of text and words |
| Scan.AnswerIsRightIff | pkg/ahocorasick/ahocorasick.go:75-116 | the answer is the plain search's if and only if a hit with the word of the leftmost-longest occurrence survives |
| Scan.RightIffUnrivalled | pkg/ahocorasick/ahocorasick.go:104-110 | when no spelling is longer than its lowered form: if and only if no other hit has a computed start below that of the leftmost-longest occurrence, or equal to it and a later end |
| Remembering.SummarisedIsRemembered | internal/service/memory/compress.go:100-111 | a message went into a compression if and only if a summary in the hot chain or the archive covers it, itself or through the summaries it was fused from, or it is lost; never both |
| Remembering.WhatIsForgotten | internal/service/memory/summary.go:85-141 | a step makes a message forgotten if and only if it is a crash and only the hot chain covers it, or an eviction whose write fails and only the evicted summary covers it |
| Remembering.CrashKeepsIff | internal/service/memory/summary.go:20-27 | after a crash a summary of the hot chain can be found again if and only if it was archived, and is reloaded if and only if, besides, fewer than five archived numbers exceed its own |
| Compression.EveryMessageAccounted | internal/service/memory/compress.go:82-126 | at every moment the window is a suffix of the log of at most 100, and every message is in it, in exactly one batch that was compressed, or dropped; only those awaiting the trim of a running compression are in two |
| Compression.TrimLeavesTheRest | internal/service/memory/compress.go:84-120 | after a trim the window is the newest 100 of the snapshot's last 20 and the k messages since, hence exactly these if and only if k is at most 80 |
| Compression.EvictedWereSummarised | internal/service/memory/window.go:60-67 | every message evicted since the snapshot was in the batch if and only if k is at most 80 |
| Compression.AtMostOneCompression | internal/service/memory/compress.go:46-71 | under every interleaving at most one run per chat is in flight, and the flag says so |
| Compression.NoStartSoonAfterFailure | internal/service/memory/compress.go:54-79 | after a failed compression no run starts within 60 seconds under any interleaving without a crash |
| SummarySpec.LoadsDecide | internal/service/memory/summary.go:45-64 | nothing archived is ever overwritten, however the program goes on from any moment of a run, if and only if each load of the run succeeds or finds nothing archived |
| Compressor.Compressor.Run | internal/service/memory/compress.go:65-79 | the goroutine does to the window, the chain, the flag and the failure time what the protocol's steps of an uninterrupted run do, whatever the model and the database answer; in numbers of messages, that is the next row |
| Compressor.WholeRunTakesAllButTwenty | internal/service/memory/compress.go:65-126 | a goroutine nothing interrupts: with more than twenty messages and an answer of the model the window is down to exactly its newest twenty and the chain has gained the summary; otherwise both are unchanged, and a failure time is noted exactly if the model failed on such a window |
| ReplyRuns.Throttled | internal/service/control/control.go:92-166 | n auto replies over T seconds, for all positive parameters: price(n-1) <= max - threshold + recover floor(T/60), where the price is the lower of cost and threshold, hence the cost whenever the threshold is not below it; and cooldown(n-1) <= T |
| ReplyRuns.PaysInFullIff | internal/service/control/control.go:105-166 | every auto reply, on every state it may be decided on, costs its full price if and only if the threshold is not below the cost |
| ReplyRuns.StreakMeaning | internal/service/control/control.go:144-156 | over every sequence of replies the counter is the length of the latest run with gaps under the cooldown since the last rest ended |
| ReplyRuns.OnlyForcedStartsRest | internal/service/control/control.go:114-156 | in a serialised run with limit at least two, a rest is started by a forced reply |
| ControlConfig.AutoRowIsInvisible | internal/service/control/control.go:169-214 | creating a group's row changes no later answer for any group, under every global configuration |
| ControlConfig.ResolveMeaning | internal/service/control/control.go:169-191 | column by column: a non-zero number and an hour that denotes a minute of a group's row are in effect, all others are the layer's below; the mode is "auto" if and only if the row says so or leaves it blank and the global mode is; quiet hours are set if and only if their ends differ; no answer exactly if the row cannot be read |
| Control.VerdictAnswers | internal/service/control/control.go:75-119 | an unmentioned message passes if and only if the mode is auto, it is long enough, comes outside the quiet hours taken around the clock, the energy recovered over whole minutes (ticked, by `ControlSpec.RecoverIsTicking`) reaches the threshold, and rest and cooldown are over; otherwise the reason is the first of these that fails, in this order |
| Control.NoLostUpdate | internal/service/control/control.go:124-166 | in every interleaving of OnReplied calls, over any stored table and with restarts, each state is the fold of the replies written for it, in lock order |
| LogQuery.PagesAreExactIff | internal/infra/logfile/logfile.go:52-98 | for given files and filter, the page is the reference page for every limit and offset if and only if no matching entry is newer than two matching entries scanned before it |
| LogQuery.PageIsExactIff | internal/infra/logfile/logfile.go:52-98 | one page, with n = offset + limit: it is the reference page if no match beyond the first n + 1 scanned is newer than two of these; and only if, on a first page or when no two matches are equal |
| LogQuery.ReferenceMeaning | internal/infra/logfile/logfile.go:52-98 | the reference page on the lines: of those in the period and of the trace asked for, newest first and stable, the ones from offset on, as many as the limit or what is left; has-more if and only if more than offset + limit lines qualify; a limit of zero is 200, a negative offset none |
| ProfileCache.StaleOnlyBeforeInvalidate | internal/service/admin/profile.go:18-38 | an entry that differs from the store is there only while a later writer has not invalidated yet |
| ProfileCache.DoneWritesAreSeen | internal/service/admin/profile.go:22-25 | a finished write is never unseen: any entry cached afterwards was read after it |
| Ledger.LedgerIsExact | internal/service/event/outcome.go:3-12 | exactly one entry line, first, and one outcome line, the right one; none if and only if the wait was cancelled or the message could not be stored |
| Ledger.BooksAreKeptOnlyForReplies | internal/service/event/event.go:132-153 | a reply is stored and counted, once each, exactly when the message ends as agent_replied |
| Ledger.CommandsAreAnswered | internal/service/event/command.go:37-115 | the exact sequence for a command: the plugin is called with the fields behind the slash, unless it is "help"; the help text or the plugin's reply is sent, once, if there is a sender; then the actions are executed up to the first failure, if there is a manager; nothing else is sent or executed |
| Ledger.FullWindowsAreCompressed | internal/service/event/event.go:67-147 | in the trace of every message a compression follows at once after each storing that reports a full window, and no other effect |
| Ledger.BlockedAsThePlainSearchIff | internal/service/event/sensitive.go:27-32 | verdict and word are the plain search's if and only if the word of the leftmost-longest occurrence survives the scan |
| ReplyText.StrippingIsUnique | internal/service/event/event.go:119-126 | there is only one such split |
| Words.SpellingIsFirstListed | pkg/ahocorasick/ahocorasick.go:27-44 | a word is reported in the first non-empty spelling listed for it, and has none exactly when no entry lowers to it |
| Words.NaiveFinds | pkg/ahocorasick/ahocorasick.go:75-77 | the plain search reports the leftmost, then longest occurrence |
| Words.NaiveMisses | pkg/ahocorasick/ahocorasick.go:75-77 | and reports a miss when nothing occurs |
| Scan.FoundFlagIsExact | pkg/ahocorasick/ahocorasick.go:104-115 | the found flag is right on every text if and only if no reported spelling is longer than its lowered form |
| Scan.KelvinIsMissed | pkg/ahocorasick/ahocorasick.go:104-104 | a listed word that shrinks when lowered is answered "not found" |
| Scan.LengthenedWordIsPassedOver | pkg/ahocorasick/ahocorasick.go:104-109 | of the words U+2C65 and twice U+023A, which lowers to twice U+2C65, the text of two U+2C65 is answered with the first, although the second starts with it and is longer |
| Scan.ScanReportsSurvivor | pkg/ahocorasick/ahocorasick.go:83-115 | for every word list and text the scan reports the surviving hit: the one that no later hit seems to start before or with, and no earlier one before, unless a negative start has wiped that out; it finds nothing exactly when none survives |
| Scan.FoundIffLastHitFits | pkg/ahocorasick/ahocorasick.go:104-115 | the found flag of any text is set exactly when there is a hit and the last one has a computed start within the text |
| AhoCorasick.AddWord | pkg/ahocorasick/ahocorasick.go:27-45 | adding a word makes the trie spell exactly the prefixes of the lowered words so far, each end labelled with its first spelling |
| AhoCorasick.FailTarget | pkg/ahocorasick/ahocorasick.go:57-67 | the walk along the fail pointers of the parent ends at the node of the longest proper suffix of the child's path, in hops paid for by depth |
| AhoCorasick.FailPointerMeaning | pkg/ahocorasick/ahocorasick.go:10-10 | in a built matcher each fail pointer leads to the longest path that is a proper suffix of the node's |
| AhoCorasick.Matcher.New | pkg/ahocorasick/ahocorasick.go:23-73 | builds a valid automaton for any word list with at most total-lowered-length hops |
| AhoCorasick.Advance | pkg/ahocorasick/ahocorasick.go:88-98 | one transition leads to the longest suffix of the text read so far that is in the trie; its hops are paid for by lost depth |
| AhoCorasick.FirstWordOnChain | pkg/ahocorasick/ahocorasick.go:99-113 | the first labelled node on the chain carries the longest word ending here; exactly the nodes down to it are looked at, at most depth + 1 |
| AhoCorasick.Matcher.Find | pkg/ahocorasick/ahocorasick.go:78-116 | the automaton computes the one-pass search for every word list and text; its transitions make at most text-length hops, and its walks for words look at the number of nodes that the results on cost are about |
| AhoCorasick.SearchIsBounded | pkg/ahocorasick/ahocorasick.go:99-113 | for every word list and text that number is at most the length of the lowered text times one more than that of the longest lowered word |
| SearchCost.SearchIsQuadratic | pkg/ahocorasick/ahocorasick.go:99-113 | with the one word a^n b and the text a^n it is n(n+3)/2 |
| Window.CopyMessage | internal/service/memory/window.go:88-97 | a copied message has equal content and parts of its own |
| Window.FilterInPlace | internal/service/memory/window.go:160-170 | filtering into the front of the array being read keeps exactly the other messages, in order |
| Window.SessionWindow.AppendMessage | internal/service/memory/window.go:57-67 | appends, keeps the newest 100, on the messages and on their values, and signals exactly when 100 are reached |
| Window.SessionWindow.GetWindow | internal/service/memory/window.go:87-99 | a deep copy: fresh array, fresh and mutually distinct parts, equal contents |
| Window.SessionWindow.BackfillParts | internal/service/memory/window.go:120-139 | the first message with the id gets a fresh copy of the parts, nothing else changes; no id, no effect |
| Window.SessionWindow.RemoveByIDs | internal/service/memory/window.go:155-173 | removes exactly the messages with those ids, on the messages and on their values, and counts them |
| Window.Window.AppendToSession | internal/service/memory/window.go:51-73 | as AppendMessage for one session, created on first use; every other session is untouched |
| Window.Window.GetWindow | internal/service/memory/window.go:78-100 | a deep copy of the session with mutually distinct parts, empty when there is none |
| Window.Window.RemoveByIDs | internal/service/memory/window.go:143-174 | removes from one session exactly the given ids; every other session is untouched |
| WindowSpec.WithoutFirst | internal/service/memory/window.go:163-169 | removing ids that are exactly those of a first stretch leaves the rest |
| WindowSpec.BackfillKeepsIds | internal/service/memory/window.go:131-137 | backfilling never changes which messages are there, nor their order |
| SummarySpec.LoadKeepsSound | internal/service/memory/summary.go:47-64 | reloading continues above every archived number, with at most five entries |
| SummarySpec.SaveAllEffect | internal/service/memory/summary.go:92-94 | archiving a chain adds exactly its entries whose write succeeds and overwrites nothing with other content |
| SummarySpec.RunKeepsArchive | internal/service/memory/summary.go:20-34 | over any run of appends, fusions, evictions, restarts and failed writes in which no load fails over a non-empty archive: numbers increase along the chain, lie below the next, fresh ones exceed all archived, and nothing archived at any moment is overwritten |
| SummarySpec.FailedLoadOverwrites | internal/service/memory/summary.go:51-63 | after a load fails over an archive, further compressions as the program makes them overwrite any given archived entry |
| SummarySpec.NewestIff | internal/service/memory/summary.go:51-51 | an archived entry is reloaded if and only if fewer than five archived numbers exceed its own |
| SummarySpec.ReloadsTheNewestFive | internal/service/memory/summary.go:45-64 | the first successful query of a chat makes exactly the newest five archived entries its chain, oldest first, and numbering goes on after the last |
| Summaries.SummaryStore.EnsureLoaded | internal/service/memory/summary.go:47-64 | loads once per chat; other chats are untouched |
| Summaries.SummaryStore.Append | internal/service/memory/summary.go:67-83 | loads if need be, numbers the summary and appends it |
| Summaries.SummaryStore.ReplaceWithFused | internal/service/memory/summary.go:87-106 | archives every entry of the chain, failures skipped, and leaves the fused one alone in it |
| Summaries.SummaryStore.EvictOldest | internal/service/memory/summary.go:109-122 | archives and removes the first entry, if any |
| Summaries.SummaryStore.GetAll | internal/service/memory/summary.go:125-133 | returns the chain |
| Compression.RunKeepsInv | internal/service/memory/compress.go:46-142 | the invariant behind the results below holds over every run |
| Compression.FusionReplacesWhatItRead | internal/service/memory/compress.go:129-142 | the chain replaced is the chain read before the model call; the fused summary is numbered above it and every entry whose write succeeds is archived unchanged |
| Compression.ArchiveOnlyGrows | internal/service/memory/summary.go:85-141 | over every run with crashes and failed writes no archived summary is lost or overwritten with other content, unless a load failed over a non-empty archive |
| Compression.ChainIsBounded | internal/service/memory/summary.go:13-15 | the hot chain never exceeds six entries, nor five when no run is in flight |
| Compression.SnapshotTakesAllButTwenty | internal/service/memory/compress.go:84-98 | in every reachable state a snapshot starts a summary if and only if the window holds more than twenty messages, and takes all but the newest twenty |
| Compression.SixAreFused | internal/service/memory/compress.go:129-133 | in every reachable state the chain is fused if and only if it holds six summaries |
| Compression.RetriesAfterAMinute | internal/service/memory/compress.go:46-79 | once a failure is noted, the next trigger starts a run if and only if sixty seconds have passed |
| Compression.FreshTriggerStarts | internal/service/memory/compress.go:46-64 | with no run in flight and no failure noted, a trigger starts one |
| Remembering.CrashLosesSummary | internal/service/memory/compress.go:107-120 | a run after which a crash leaves a summarised and trimmed message in no window and no summary |
| Compressor.Compressor.Trigger | internal/service/memory/compress.go:47-63 | starts a run exactly when none is in flight and no failure is recent, and takes the protocol's step |
| Compressor.Compressor.RecordFailure | internal/service/memory/compress.go:72-75 | records the failure: the protocol's step |
| Compressor.Compressor.Release | internal/service/memory/compress.go:67-71 | clears the flag: the protocol's step |
| Compressor.Compressor.Compress | internal/service/memory/compress.go:82-126 | with distinct ids nothing changes if and only if the window holds at most twenty messages or the model fails; otherwise exactly the newest twenty stay and the summary joins the chain: up to five are kept, a sixth has all fused or, if the model fails, pushes the oldest out |
| Compressor.Compressor.MaybeFuse | internal/service/memory/compress.go:129-142 | up to five summaries nothing happens; beyond, fusion, or eviction when the model fails |
| Compressor.CompressIsARun | internal/service/memory/compress.go:82-126 | where these events lead: a short window and a failing model change nothing, success trims the batch and leaves the chain with its summary |
| Compressor.Compressor.CompressAs | internal/service/memory/compress.go:82-126 | compressing does to the window and the chain what the run's events do |
| ControlSpec.RecoverIsTicking | internal/service/control/control.go:359-374 | lazy recovery equals ticking once a minute, saturated at the maximum |
| ControlSpec.RecoverTwice | internal/service/control/control.go:359-374 | recovering on the way gives the same energy, although saturation resets the timestamp |
| ReplyRuns.EnergyBudget | internal/service/control/control.go:105-166 | the auto replies of a serialised run, at the lower of cost and threshold each, are paid from the initial energy and whole minutes of recovery |
| ReplyRuns.BelowCostNothingIsPaid | internal/service/control/control.go:108-163 | a serialised run of three auto replies, with a threshold below the cost, that breaks the bound at full cost |
| ReplyRuns.CooldownBudget | internal/service/control/control.go:114-118 | auto replies are a cooldown apart, forced replies in between or not |
| ReplyRuns.NothingRecoversUnderAMinute | internal/service/control/control.go:163-163 | replies less than a minute apart each take the full cost and recover nothing |
| ReplyRuns.RemainderKeptIff | internal/service/control/control.go:359-374 | a reply leaves all later recovery as if the part of a minute already waited had been kept if and only if there is none or the recovery reached the maximum |
| ReplyRuns.StreakStep | internal/service/control/control.go:144-156 | a rest begins exactly when no rest is running and the run of close replies reaches the limit; it lasts rest_seconds and replies inside neither extend it nor count |
| ReplyRuns.TailRunIsLongest | internal/service/control/control.go:147-151 | that run is the longest one |
| ControlConfig.FormatParses | internal/service/control/control.go:217-220 | formatting any number of minutes and parsing gives it back modulo a day |
| ControlConfig.ParseMeaning | internal/service/control/control.go:306-312 | exactly which strings parse, and to which minute |
| ControlConfig.MergeSnapshot | internal/service/control/control.go:198-214 | laying the snapshot of effective rules over them changes nothing |
| ControlConfig.PrivateModeIsNotNormalised | internal/service/control/control.go:169-188 | private chats and groups treat the global mode alike exactly when it is a known one |
| ControlConfig.AutoRowIsValid | internal/service/admin/validate.go:48-75 | the administration accepts an auto-created row exactly when the group is named and no global parameter is negative |
| ControlConfig.AcceptedMeansWhatItSays | internal/service/admin/validate.go:46-75 | a row is accepted exactly if its group is named, nothing is negative, the switch is 0 or 1, its mode is in effect under every global mode, and each hour it names denotes a minute |
| ControlConfig.ValidRowKeepsPositive | internal/service/admin/validate.go:46-75 | accepted rows keep the merged rules positive and well-formed |
| ControlConfig.QuietHoursAreCyclic | internal/service/control/control.go:314-325 | quiet hours are the cyclic interval from start to end |
| ControlConfig.SwappedQuietHours | internal/service/control/control.go:314-325 | swapping unequal ends gives the complement |
| ControlConfig.DefaultHoursParse | internal/service/control/control.go:250-252 | the embedded default quiet hours parse, so that construction cannot fail |
| Control.ControlService.ResolveParams | internal/service/control/control.go:169-214 | what is in effect for a message's group, column by column, errors included; the table gains at most the group's row, recording what is in effect with group management on |
| ControlConfig.EffectIsUnique | internal/service/control/control.go:176-188 | a table leaves room for one mode and one set of rules per group |
| ControlConfig.GlobalRules | internal/service/control/control.go:231-256 | the global configuration is laid over the defaults of the code in the same way |
| ControlConfig.AutoDecisionMeaning | internal/service/control/control.go:94-119 | the verdict for given rules: passed if and only if four independent tests hold, else the first that fails |
| Control.ControlService.ShouldReply | internal/service/control/control.go:75-119 | mentions pass without any look-up; otherwise, for the mode and rules in effect, the answer is the verdict described above, and the state is read only when length and hour allow; only an auto-created row changes |
| Control.ControlService.OnReplied | internal/service/control/control.go:124-166 | the session's state takes the reply step with the rules in effect or, on any failure or in mention mode, nothing changes; no other session does |
| Control.SessionKeysDiffer | internal/domain/entity/message.go:26-31 | two messages share a key if and only if they are of one group or of one private chat, or a group is named like a private chat |
| Control.FoldIsSequential | internal/service/control/control.go:124-166 | so the run results hold of every session, and energy stays within its limits |
| LogQuery.RunQuery | internal/infra/logfile/logfile.go:52-98 | the page of any query over any files: the sorted first matches seen before the two early exits; what such a page lists and counts, on the lines of the files, is in the next rows |
| LogQuery.PageListsWhatWasAsked | internal/infra/logfile/logfile.go:230-246 | every item lies in the period, ends included, has the trace asked for, and is listed no more often than it is logged |
| LogQuery.MatchesAreTheLinesAskedFor | internal/infra/logfile/logfile.go:66-87 | the matches are exactly the parsed lines in the period and of the trace, each as often as it is logged |
| LogQuery.PageCountsWhatWasAsked | internal/infra/logfile/logfile.go:52-98 | has-more if and only if more than offset + limit lines qualify; the page is as long as these numbers say |
| LogQuery.ScanFile | internal/infra/logfile/logfile.go:72-87 | scanning a file backwards adds what is seen down to the first line before Begin, up to the number needed |
| LogQuery.BreakLosesNothingIff | internal/infra/logfile/logfile.go:77-79 | stopping at Begin loses nothing if and only if no match stands before a line older than Begin |
| LogQuery.SortedIsSorted | internal/infra/logfile/logfile.go:90-90 | the sort gives a newest-first permutation |
| LogQuery.SortedIsStable | internal/infra/logfile/logfile.go:90-90 | and keeps the order of entries of equal time |
| LogQuery.PageIsSound | internal/infra/logfile/logfile.go:47-98 | has-more and page length are those of the reference, whose own are counted in PageCountsWhatWasAsked; all items match, come from the files and are newest first |
| LogQuery.PageIsExactWhenAllFits | internal/infra/logfile/logfile.go:58-98 | when everything fits, the page is the reference page |
| LogQuery.PageIsExactForOneFile | internal/infra/logfile/logfile.go:58-98 | as it is with one candidate file |
| LogQuery.EqualEntriesHideIt | internal/infra/logfile/logfile.go:90-98 | with equal entries a later page can be the reference page although a newer match is missed |
| LogQuery.InterleavedFilesFail | internal/infra/logfile/logfile.go:50-51 | two files that overlap in time for which it is not |
| ProfileCache.RunKeepsInv | internal/service/memory/profile.go:31-65 | over every interleaving a cached or loaded value is what the store held when read, and every later write to its group is pending |
| ProfileCache.LoadedOncePerDrop | internal/service/memory/profile.go:13-14 | each group is cached once, and once more for each time its entry was dropped |
| ProfileCache.TouchIsARun | internal/service/memory/profile.go:31-48 | an undisturbed TouchMessage is that run of protocol steps |
| ProfileCache.UpsertIsARun | internal/service/admin/profile.go:18-28 | so is an undisturbed upsert |
| ProfileCache.Cache.TouchMessage | internal/service/memory/profile.go:31-48 | caches a group's row or its absence on first sight, nothing for private messages or failed reads, and keeps the cache coherent |
| ProfileCache.Cache.GetGroupProfile | internal/service/memory/profile.go:51-56 | tells "not cached" from "no profile"; what a coherent cache answers is what the store holds |
| ProfileCache.Cache.Invalidate | internal/service/memory/profile.go:60-65 | makes a cache coherent again that was so but for the group; it is the protocol's step of a writer of that group |
| ProfileCache.Admin.UpsertGroupProfile | internal/service/admin/profile.go:18-28 | writes and invalidates, or neither; keeps the cache coherent |
| ProfileCache.Admin.DeleteGroupProfile | internal/service/admin/profile.go:31-38 | deletes and invalidates, or, with no row or a failing store, neither |
| ReplyText.StripTags | internal/service/event/event.go:119-126 | splits a reply into a run of tags and a rest that starts with none |
| ReplyText.StrippedHasNoTag | internal/service/event/event.go:119-126 | stripping again changes nothing |
| ReplyText.StrippedUnchangedIff | internal/service/event/event.go:121-124 | exactly the replies that start with no tag pass unchanged |
| ReplyText.SpacedTagRemains | internal/service/event/event.go:119-126 | of two tags with a space between, the second remains |
| Pipeline.Chain | internal/service/event/middleware.go:19-25 | the loop composes the middlewares with the first outermost |
| Pipeline.ChainIsHandle | internal/service/event/event.go:58-63 | the composed chain logs, then waits, then filters, then runs the tail |
| Pipeline.EventService.HandleMessage | internal/service/event/event.go:204-206 | with the real matcher in place, trace and error of a message are those of the chain |
| Pipeline.EventService.WaitForToken | internal/service/event/ratelimit.go:63-73 | a refused wait ends the message: trace and error are then those of the whole pipeline |
| Pipeline.EventService.HandleTail | internal/service/event/event.go:67-83 | the code leaves the trace of a tail that stores, compresses when full, then dispatches or replies; what that trace holds is in Ledger |
| Pipeline.EventService.DispatchCommand | internal/service/event/command.go:37-100 | handles exactly the commands and leaves the trace analysed in Ledger.CommandsAreAnswered |
| Pipeline.EventService.ExecuteActions | internal/service/event/command.go:104-115 | executes the actions up to the first failure, none without a manager |
| Pipeline.EventService.RespondTo | internal/service/event/event.go:90-117 | judge, look for a sender, build the prompt, each failure ending it |
| Pipeline.EventService.GenerateAndSend | internal/service/event/event.go:113-154 | generate, strip, send, store, count |
| Ledger.CountedAfterSend | internal/service/event/event.go:118-152 | sent successfully, then stored, then counted; what is sent has no leading tag, is not blank, and mentions the sender exactly in groups |
| Ledger.EverythingIsFiledUnderTheTrigger | internal/service/event/event.go:137-147 | message, reply and compressions all belong to the session of the incoming message |
| Ledger.OwnKeyWouldStray | internal/service/event/event.go:177-178 | in a private chat the bot's own key would have been another session |
| Ledger.GateIsTight | internal/service/event/event.go:58-63 | behind the gate a message is stored exactly once; in front of it only lines are written |
| Ledger.BlockedIffAWordOccurs | internal/service/event/sensitive.go:24-35 | only messages in which a configured word occurs are stopped, and these exactly when the last hit fits; always, when no spelling is longer than its lowered form |
| Ledger.CommandsAreNotJudged | internal/service/event/event.go:75-82 | commands are never judged, prompted or counted |
| Ledger.OthersReachNoPlugin | internal/service/event/command.go:38-41 | other messages are judged once and reach no plugin |
| Ledger.CommandsReachThePlugin | internal/service/event/command.go:16-29 | a stored message reaches a plugin, once and with its fields, or the help text, if and only if its trimmed text starts with a slash that a field follows; else it is judged, once |
| Ledger.StagesOfAReply | internal/service/event/event.go:90-117 | what is no command is judged; the prompt is built exactly if the verdict is to reply and there is a sender, the model asked exactly if that worked |
| Ledger.ActionsStopAtFirstFailure | internal/service/event/command.go:102-115 | what is executed is a first stretch of the actions, all but its last successful, cut short only by a failure |
| Ledger.BlockedIffLastHitFits | internal/service/event/sensitive.go:24-35 | a message ends as sensitive if and only if its last hit has a computed start within the text, for every word list |
| Ledger.LogBalances | internal/service/event/outcome.go:3-12 | over any sequence of messages the log holds as many entry lines as messages and as many outcome lines as messages that do not end in silence |

## Left out

- Integer widths: numbers are unbounded; the program uses 64-bit integers for times and numbers far below their range.
- Unicode: lower-casing, trimming, splitting into fields and counting characters are abstract functions; `Ledger.BlockedIffAWordOccurs` and the matcher state what they need of lower-casing, and the results on commands that nothing splits into no fields.
- AhoCorasick.Matcher.Find: requires that no non-empty entry lowers to the empty string, which would label the root; lower-casing in Go never does that.
- Concurrent map internals: `sync.Map` and mutexes are modelled by atomic steps, not by their implementation.
- Compression.EveryMessageAccounted: message ids are distinct within a chat; empty or repeated ids, which the trim would confuse, are not modelled.
- Compression.ArchiveOnlyGrows: says nothing of runs in which a load failed over a non-empty archive; that they are exactly the unsafe ones is `SummarySpec.LoadsDecide`.
- Remembering.SummarisedIsRemembered: nor does this and the results beside it, since numbers then stand for two summaries.
- Compressor.Compressor.Compress: the error branches for reading and trimming the window are missing, because these operations never fail.
- ReplyRuns.Throttled: holds for serialised runs, in which each auto decision is recorded before the session's next decision; the program does not enforce this. Which thresholds below the cost still keep the bound at full cost, because of how the parameters divide, is not stated.
- ControlConfig.AutoRowIsInvisible: is about one global configuration; a row created under an earlier one pins its values.
- ProfileCache.Cache.TouchMessage: a failing store is taken to have changed nothing; a write that fails after taking effect would leave a stale entry.
- ProfileCache.Admin.UpsertGroupProfile: trimming the profile's lists is not modelled (the trimmed profile is the argument), nor is the audit record.
- Configuration changes in the middle of a run, and negative parameters, are outside the run results of trigger control.
- The token bucket and its registry of sessions: a wait is granted, refused or cancelled.
- Storage: SQLite is a map per table with calls that may fail; prompt texts, the parsing of model output and prompt assembly carry no modelled meaning.
- LogQuery.PagesAreExactIff: within each file times do not run backwards, as with a single writer; what the break at the beginning of the period loses otherwise is `LogQuery.BreakLosesNothingIff`.
- Choosing and opening log files, their order by modification time and the parsing of lines: the query starts from the parsed candidate files.
- Listing sessions, field summaries in log lines, tool registry, media description, plugins' processes, the web handlers and the connection layer: input and output, or computations with no property beyond their text.
