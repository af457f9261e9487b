# Gateway cores, modelled and proved in Dafny

A model of the self-contained algorithms and state machines of the LLM gateway, with proofs
of what they promise. Each component is modelled in the form the Go code has: objects that
update fields are classes whose methods are proved against functions on their state, loops are
loops with invariants, pure code is functions; the laws are then proved about those functions
over all inputs, all runs or all interleavings.

| files | component |
|---|---|
| `Text.dfy`, `NameLists.dfy` | trimming, splitting and joining; the ordered-list algebra on model names |
| `UpstreamSync.dfy`, `UpstreamLaws.dfy` | detecting and applying upstream model changes |
| `ChannelScan.dfy` | the keyset-paged scan over enabled channels |
| `MultiKey.dfy`, `MultiKeyLaws.dfy` | multi-key channels: one key string, per-index status data |
| `RateLimiter.dfy` | the sliding-window rate limiter with its purge |
| `VerificationCodes.dfy` | the expiring code store |
| `Floats.dfy`, `RatioDifferences.dfy`, `RatioLaws.dfy` | the price comparison with upstream channels |
| `PriceSelection.dfy` | choosing one price per model among providers |
| `Bytes.dfy`, `Base64Image.dfy` | the Base64 length validator and MIME sniffing |
| `OggScan.dfy` | the Opus duration scan |
| `StorageLedger.dfy`, `BodyStorage.dfy`, `BodyLaws.dfy`, `DiskCache.dfy` | request-body storage, its counters, the disk-cache race and cleanup |
| `QuotaMath.dfy`, `MultiplierMicros.dfy` | saturating quota conversions; millionths of a display multiplier |

`dafny verify dfyconfig.toml` checks everything.

## Results that are not the expected ones

Where an expected law does not hold of the code, the model follows the code, a lemma gives the
failing inputs, and the exact condition is proved.

- Detect, apply everything, detect again does not always settle (`UpstreamLaws.ConvergesIff`):
  a pending name with a comma is split by the stored list, and a model whose name is the text of
  a `regex:` ignore entry removes that entry when it is adopted, so what the pattern hid becomes
  pending (`UpstreamLaws.PatternNameUnhides`).
- Deleting the auto-disabled keys when all keys are auto-disabled deletes none and enables them
  all, because `Channel.Update` keeps the stored key when the new one is empty
  (`MultiKeyLaws.AllDeadRevive`, `MultiKeyLaws.DeleteOrdinaryDisabledIff`).
- Deleting a key next to a blank line renumbers the others wrongly
  (`MultiKeyLaws.BlankLineFreesKey`); `MultiKeyLaws.DeleteKeyIff` says exactly when it is right.
- Replacing the keys of a channel keeps the disable times and reasons of keys that are gone
  (`MultiKeyLaws.ReplaceLeavesStale`); `MultiKeyLaws.RunConsistentIff` says on which runs that
  happens, and deletions repair such rows.
- A limit of 0 admits like a limit of 1, and a purge is invisible exactly when every window is at
  most the expiration plus one second (`RateLimiter.SlidingWindowIff`).
- The batch scan never ends exactly when a whole batch of enabled channels has ids of zero or
  below (`ChannelScan.ScanEndsIff`).
- A null or literally "same" upstream price can be dropped from the comparison, and of two
  channels with one name the last decides (`RatioLaws.NullReportVanishes`,
  `RatioLaws.SameReportVanishes`, `RatioLaws.EqualNamesHide`); `RatioLaws.SurvivesIff` is exact
  for all inputs.
- A cleanup that removes a cache file before its creator has counted it can leave the counter above
  what is on disk until that storage is closed (`DiskCache.EarlyCleanupOvercounts`,
  `DiskCache.StalledCopyOvercounts`, `DiskCache.EarlyCleanupIff`, `DiskCache.CounterBetween`).
- A body longer than declared, such as a decompressed upload, can exceed the disk limit
  (`DiskCache.UndeclaredBytesOvershoot`, `DiskCache.OneCreatorSafeIff`).
- A check between the subtraction and the clamp of a cleanup reads a counter below zero and admits
  bodies larger than the maximum (`DiskCache.CleanupAdmitsLarge`, `DiskCache.RaceBoundIff`).
- Appending keys to text that starts with a bracket without being an array loses the old keys
  (`MultiKeyLaws.BrokenArrayIsLost`); `MultiKeyLaws.AppendIff` and
  `MultiKeyLaws.UnreadableAppendIff` are exact.
- The quota bounds themselves are reported as clamped (`QuotaMath.ClampIff`), and conversion
  commutes with negation exactly below 2^31 (`QuotaMath.OddSymmetryIff`).
- The comment above the age-based cleanup says that it does not update the statistics; the code
  does, and the model follows the code (`DiskCache.CleanupOld`).

## Hypotheses about the environment

The clock does not run backwards within a run; the configuration and the regular-expression
engine are fixed; the database and file operations modelled succeed unless a parameter says
otherwise; prices and quotas are exact reals with NaN and the infinities; a JSON array's text
is at least two characters longer than its elements joined by newlines.

## Model

| member | source | states |
|---|---|---|
| Text.StoredRoundTrip | model/channel.go:291-296 | a joined list is read back after trimming exactly when no entry holds the separator and neither end is blank |
| Text.TrimBySpan | model/channel.go:291-296 | trimming returns one stretch of the string, and everything outside it is to be cut |
| NameLists.NormalizeNormal | controller/channel_upstream_update.go:100-105 | normalised lists are distinct, trimmed, non-blank, and normalising again changes nothing |
| NameLists.NormalizeMembers | controller/channel_upstream_update.go:100-105 | exactly the non-blank trimmed names survive |
| NameLists.NormalizeOrder | controller/channel_upstream_update.go:100-105 | they stand in the order of their first occurrences |
| NameLists.MergeNames | controller/channel_upstream_update.go:107-121 | the loop with its seen set computes the ordered union |
| NameLists.MergeMeaning | controller/channel_upstream_update.go:107-121 | union: the normalised base, then the new names in the order of the other list; unchanged when nothing is new |
| NameLists.SubtractMeaning | controller/channel_upstream_update.go:123-132 | set difference in the base's order |
| NameLists.IntersectMeaning | controller/channel_upstream_update.go:134-143 | set intersection in the base's order |
| NameLists.ApplySelectedMembers | controller/channel_upstream_update.go:145-150 | old and added names minus the removed ones that were not added, in the order of the union |
| UpstreamSync.PendingAddMeaning | controller/channel_upstream_update.go:179-238 | pending additions are the upstream names that are not local, not redirect targets and not ignored, in upstream order |
| UpstreamSync.PendingRemoveMeaning | controller/channel_upstream_update.go:228-237 | pending removals are the local names that are not redirect sources and not offered |
| UpstreamSync.ModelsRoundTrip | model/channel.go:291-296 | a model list survives its stored column exactly when no name holds a comma |
| UpstreamSync.GetModelsMeaning | model/channel.go:291-296 | the models of any column are its comma-separated names, whatever commas surround them |
| UpstreamSync.AutoSyncGrows | controller/channel_upstream_update.go:498-506 | auto-sync adopts every pending name, none of which was present |
| UpstreamSync.Reconcile | controller/channel_upstream_update.go:498-520 | the row after a successful fetch, and that auto-sync adopts all pending names or none |
| UpstreamSync.Channel.CheckAndPersist | controller/channel_upstream_update.go:463-521 | the whole channel, its database row and the outcome after a check, including the interval guard, a failed fetch, a failed write and a failed rebuild of the abilities |
| UpstreamSync.Channel.Apply | controller/channel_upstream_update.go:919-967 | the whole channel, its database row, the reported lists and the outcome after an apply, also when the write or the rebuild of the abilities fails |
| UpstreamSync.ApplyTo | controller/channel_upstream_update.go:932-955 | the changed row, the selections and whether the models changed |
| UpstreamSync.AdoptPending | controller/channel_upstream_update.go:498-506 | the merged list and the number of adopted names |
| UpstreamLaws.NextModelsMeaning | controller/channel_upstream_update.go:940-945 | the models after an apply are the old and added ones minus the dropped ones, in the order of the union |
| UpstreamLaws.NextIgnoredMeaning | controller/channel_upstream_update.go:947-950 | the ignore list gains the dismissed names behind the old ones and loses the added ones |
| UpstreamLaws.SelectionMeaning | controller/channel_upstream_update.go:933-938 | only pending names can be added, ignored or dropped, and an addition wins over a removal |
| UpstreamLaws.RemainingMeaning | controller/channel_upstream_update.go:951-954 | exactly the pending names neither added nor ignored stay pending, in order |
| UpstreamLaws.RemainingRemovals | controller/channel_upstream_update.go:937-954 | exactly the pending removals that are not selected, or are selected as additions too, stay pending, in order |
| UpstreamLaws.ApplyRecords | controller/channel_upstream_update.go:940-955 | an apply records its time and leaves the stored models untouched when the list does not change |
| UpstreamLaws.FetchMeaning | controller/channel_upstream_update.go:489-510 | a successful fetch keeps the ignore list, stores exactly the names gone upstream as removals, and leaves the new names pending or adopts them behind the local models |
| UpstreamLaws.IgnoredMeaning | controller/channel_upstream_update.go:217-223 | a name is ignored exactly when it is listed literally or the trimmed body of a pattern entry matches it |
| UpstreamLaws.ApplyAccountsForPending | controller/channel_upstream_update.go:932-954 | each pending addition ends as added, ignored or still pending, adding wins, order is kept |
| UpstreamLaws.ApplyStoresModels | controller/channel_upstream_update.go:940-945 | the stored list reads back as computed exactly when no added name holds a comma |
| UpstreamLaws.ConvergesIff | controller/channel_upstream_update.go:179-238 | detect, apply all, detect again settles exactly when no pending name holds a comma and no ignore entry is lost |
| UpstreamLaws.Converges | controller/channel_upstream_update.go:919-967 | with comma-free upstream names that are not ignore patterns it always settles |
| UpstreamLaws.CommaNeverSettles | controller/channel_upstream_update.go:943-945 | a pending name with a comma is pending again after being applied |
| UpstreamLaws.LostIgnoreUnhides | controller/channel_upstream_update.go:947-950 | a hidden name whose ignore entries were all adopted as models becomes pending |
| UpstreamLaws.PatternNameUnhides | controller/channel_upstream_update.go:948-950 | adopting a model named like an ignore pattern unhides what the pattern hid |
| UpstreamLaws.AutoSyncSettlesIff | controller/channel_upstream_update.go:498-506 | auto-sync settles the additions exactly when no pending name holds a comma |
| UpstreamLaws.RunKeepsApart | controller/channel_upstream_update.go:489-510 | over every run pending additions and literal ignore entries stay disjoint, and an ignored name is never pending again |
| UpstreamLaws.RunWaits | controller/channel_upstream_update.go:480-490 | over every run of unforced checks within the minimum interval after a recorded check nothing changes, and the first one afterwards is carried out |
| ChannelScan.SelectMeaning | controller/channel_upstream_update.go:973-984 | the query yields the enabled ids above the last one, ascending |
| ChannelScan.SelectBehind | controller/channel_upstream_update.go:973-984 | restarting after the k-th enabled id, if positive, yields exactly the ids behind it |
| ChannelScan.ScanEnabled | controller/channel_upstream_update.go:993-1048 | with fewer non-positive enabled ids than a batch the loop ends having visited every enabled channel exactly once in ascending order |
| ChannelScan.ScanEndsIff | controller/channel_upstream_update.go:673-761 | for every table and batch size the scan ends exactly when fewer than a batch of enabled ids are non-positive, and then all are visited |
| MultiKey.CollectMeaning | controller/channel.go:1864-1890 | renumbering moves every status, time and reason with its key |
| MultiKey.KeepOthers | controller/channel.go:1859-1890 | the deletion loop keeps all keys but one with their data |
| MultiKey.KeepAliveKeys | controller/channel.go:1922-1958 | the bulk deletion loop keeps the keys that are not auto-disabled, and counts the others |
| MultiKey.DropSeen | controller/channel.go:1087-1106 | the append loop drops blank, seen and repeated keys |
| MultiKey.DisabledUpToMeaning | controller/channel.go:1805-1817 | disabling all touches exactly the enabled indices |
| MultiKey.Channel.Update | model/channel.go:548-595 | the saved row: an empty key keeps the stored one, size recomputed, statuses beyond it dropped |
| MultiKey.Channel.DisableKey | controller/channel.go:1684-1725 | the row after disabling one key, or unchanged out of range |
| MultiKey.Channel.EnableKey | controller/channel.go:1727-1767 | the row after clearing one key's data |
| MultiKey.Channel.EnableAll | controller/channel.go:1769-1791 | the row after clearing all data, with the reported number |
| MultiKey.Channel.DisableAll | controller/channel.go:1793-1838 | the row after disabling the enabled keys, unchanged if there is none |
| MultiKey.Channel.DeleteKey | controller/channel.go:1840-1918 | the row after deleting one key; the last one stays |
| MultiKey.Channel.DeleteDisabled | controller/channel.go:1920-1987 | the row after the bulk deletion and the reported number |
| MultiKey.Channel.AppendKeys | controller/channel.go:1036-1114 | the row after appending lines or Vertex AI entries; refused, and unchanged, when those cannot be read |
| MultiKey.Channel.ReplaceKeys | controller/channel.go:1111-1114 | the row after the text is replaced: size and statuses follow the new keys, times and reasons are the old ones |
| MultiKey.Channel.ReportKey | model/channel.go:663-713 | the row and the status of the channel itself after a status report for one key |
| MultiKey.HasEnabledKey | model/channel.go:715-726 | whether some key is enabled, a missing status counting as enabled |
| MultiKeyLaws.WrittenKeysIff | model/channel.go:177-199 | a key list is read back as written exactly when it is writable: no inner newlines, no blank end, not read as an array |
| MultiKeyLaws.CleanWritable | model/channel.go:177-199 | ordinary one-line keys are always writable |
| MultiKeyLaws.GetKeysMeaning | model/channel.go:177-199 | the keys of any text: the elements of an array, otherwise newline-free lines that joined give the text without its outer newlines; none for the empty text |
| MultiKeyLaws.DisableMeaning | controller/channel.go:1684-1725 | the key gets status 2 and keeps time and reason, every other key keeps everything; out of range nothing happens |
| MultiKeyLaws.EnableMeaning | controller/channel.go:1727-1767 | the key loses status, time and reason, every other key keeps everything; out of range nothing happens |
| MultiKeyLaws.EnableAllMeaning | controller/channel.go:1769-1791 | every key is enabled without time and reason, under the same text |
| MultiKeyLaws.CountEnabledMeaning | controller/channel.go:1805-1817 | the reported number is the number of enabled keys |
| MultiKeyLaws.DisableAllMeaning | controller/channel.go:1793-1838 | no key stays enabled, disabled keys keep their status, and no time or reason changes |
| MultiKeyLaws.DeleteKeyIff | controller/channel.go:1840-1918 | whenever the size is the number of keys, deletion leaves exactly the other keys, in order, exactly when they are writable |
| MultiKeyLaws.DeleteKeyKeepsData | controller/channel.go:1864-1905 | each remaining key then keeps the status, time and reason of its old index, an explicit enabled status is dropped, and data that was stale before is gone |
| MultiKeyLaws.DeleteKeyText | controller/channel.go:1849-1905 | out of range nothing is deleted; in range the stored text is the other keys as lines, or the old text if that is blank |
| MultiKeyLaws.LastKeyStays | controller/channel.go:1892-1898 | the last key cannot be deleted |
| MultiKeyLaws.BlankLineFreesKey | controller/channel.go:1900-1905 | with a blank line a deletion makes an auto-disabled key live again |
| MultiKeyLaws.KeptAliveMeaning | controller/channel.go:1928-1958 | the survivors are exactly the keys that are not auto-disabled, in order |
| MultiKeyLaws.DeleteDisabledIff | controller/channel.go:1920-1987 | for any keys, bulk deletion leaves exactly the keys that are not auto-disabled, if and only if there is nothing to delete or those keys are writable |
| MultiKeyLaws.DeleteDisabledText | controller/channel.go:1960-1973 | without auto-disabled keys nothing changes; otherwise the stored text is the other keys as lines, or the old text if that is blank |
| MultiKeyLaws.DeleteOrdinaryDisabledIff | controller/channel.go:1920-1987 | for ordinary keys that is exactly when some key is not auto-disabled |
| MultiKeyLaws.DeleteDisabledKeepsStatus | controller/channel.go:1938-1957 | survivors keep their order and status, and time and reason exactly if they are not enabled; stale data is gone |
| MultiKeyLaws.AllDeadRevive | controller/channel.go:1968-1975 | when all keys are auto-disabled none is deleted and all become enabled |
| MultiKeyLaws.UnseenMeaning | controller/channel.go:1095-1106 | appended keys are trimmed, distinct and new, and no offered key is lost |
| MultiKeyLaws.TrimmedSetMeaning | controller/channel.go:1087-1094 | the keys taken as seen are exactly the trimmed non-blank existing ones |
| MultiKeyLaws.NewKeysMeaning | controller/channel.go:1087-1106 | the appended keys are the normalised offered ones without those already there, in order: none equals an existing key, and every offered key is blank, existing or appended |
| MultiKeyLaws.ExistingKeysIff | controller/channel.go:1045-1057 | appending starts from the keys of the channel exactly when its text is not an unreadable array |
| MultiKeyLaws.AppendIff | controller/channel.go:1040-1109 | for any readable text and any offered keys, appending leaves the old keys followed by the unseen ones exactly when that list is writable, or blank so that nothing is written |
| MultiKeyLaws.AppendKeepsData | controller/channel.go:1040-1109 | then every old key keeps its status, time and reason, whatever the keys look like |
| MultiKeyLaws.UnreadableAppendIff | controller/channel.go:1045-1057 | on text that starts like an array and is none, appending leaves only the new keys, exactly when they are writable |
| MultiKeyLaws.BrokenArrayIsLost | controller/channel.go:1045-1057 | a key that starts with a bracket is gone after any other key is appended |
| MultiKeyLaws.AppendMeaning | controller/channel.go:1087-1109 | in a row of ordinary keys that is always so, and the row stays one |
| MultiKeyLaws.LinesClean | controller/channel.go:1078-1084 | lines are ordinary keys exactly when none looks like an array |
| MultiKeyLaws.SaveConsistentIff | model/channel.go:548-595 | for any text, a saved row is in agreement exactly when the text is not an empty array and no time or reason lies beyond its keys |
| MultiKeyLaws.ReplaceConsistentIff | controller/channel.go:1111-1114 | replacing ordinary keys leaves agreement exactly when no time or reason lies beyond the new keys |
| MultiKeyLaws.ReplaceMeaning | controller/channel.go:1111-1114 | a replacement takes the new text unless it is empty and carries the data at every index over, statuses as far as there are keys |
| MultiKeyLaws.ReplaceLeavesStale | controller/channel.go:1111-1114 | two keys replaced by one leave the time of the second behind |
| MultiKeyLaws.RunGood | controller/channel.go:1569-1987 | from a row of ordinary keys, over every run of deletions, appends, replacements, reports and switches, the size is the number of keys and every status belongs to one |
| MultiKeyLaws.RunConsistentIff | controller/channel.go:1036-1987 | times and reasons too are in range in every state of a run exactly when every replacement fits the data present when it happens |
| MultiKeyLaws.RunSized | model/channel.go:548-595 | for any key text and any inputs, over every run the size stays the recomputed one and no status lies outside it |
| MultiKeyLaws.RunCountedIff | model/channel.go:548-595 | for any key text and any inputs, after every run the size is the number of keys exactly when the text is not an empty array |
| MultiKeyLaws.SizeIsCountIff | model/channel.go:562-578 | the recomputed size is the number of keys exactly when the text is not an empty array |
| MultiKeyLaws.FirstIndexRange | model/channel.go:668-674 | a reported key is found at its first occurrence |
| MultiKeyLaws.ReportMeaning | model/channel.go:663-702 | a report changes the data at the first place of its key and nowhere else: enabled forgets the status, anything else is recorded with reason and time; an unknown key changes nothing |
| MultiKeyLaws.ChannelMeaning | model/channel.go:663-713 | the status of the channel: auto-disabled when no key is enabled any more, enabled when that was reported, otherwise as before; the reported one without a key in question, unchanged for an unknown key |
| MultiKeyLaws.ReportInStepIff | model/channel.go:665-711 | a channel that is enabled exactly while some key is stays so exactly when the report names a key or brings the status it has |
| MultiKeyLaws.ReportsKeepStep | model/channel.go:663-713 | over every run of reports that name a key the channel is auto-disabled exactly while all its keys are disabled |
| RateLimiter.InMemoryRateLimiter.Request | common/rate-limit.go:45-70 | the answer and the whole store after a request: admitted while the queue is short or its oldest entry has left the window |
| RateLimiter.InMemoryRateLimiter.ClearExpired | common/rate-limit.go:28-42 | a purge removes exactly the keys whose last admission is too old |
| RateLimiter.ExpiryMeaning | common/rate-limit.go:36-36 | the purge age is the expiration in whole seconds, rounded down |
| RateLimiter.AdmitIsAllowed | common/rate-limit.go:51-64 | on a queue that stands for the past, the queue test decides as counting the admissions younger than the window does |
| RateLimiter.RunAgrees | common/rate-limit.go:28-70 | when nothing is purged before it leaves its window, every run of requests and purges is answered as by the naive sliding window over the whole history |
| RateLimiter.SlidingWindowIff | common/rate-limit.go:14-42 | that agreement holds on all runs exactly when no purge is started (an expiration of zero or below) or every window of w seconds has (w - 1) * 10^9 nanoseconds within the expiration |
| RateLimiter.EarlyPurgeAdmits | common/rate-limit.go:36-38 | with a positive expiration and one longer window, some run is answered differently, whatever the limit |
| RateLimiter.PurgeInvisible | common/rate-limit.go:28-42 | with covered windows, removing the purges from a run changes no answer |
| RateLimiter.LimitHolds | common/rate-limit.go:45-70 | with covered windows, any limit+1 consecutive admissions of a key span at least the window |
| RateLimiter.ReferenceSpaced | common/rate-limit.go:45-70 | the reference itself keeps that spacing, for any window |
| VerificationCodes.Store.Register | common/verification.go:35-45 | the map after a registration with its size-triggered purge |
| VerificationCodes.Store.Verify | common/verification.go:47-56 | the answer from the map |
| VerificationCodes.Store.Delete | common/verification.go:58-62 | the map without the slot |
| VerificationCodes.Store.RemoveExpired | common/verification.go:65-72 | exactly the expired entries go |
| VerificationCodes.LiveMeaning | common/verification.go:65-72 | a purge keeps exactly the entries younger than ten minutes, unchanged |
| VerificationCodes.RegisterMeaning | common/verification.go:35-45 | a registration is always kept, and another entry goes exactly when there are more than ten and it is ten minutes old |
| VerificationCodes.NoCollisionIff | common/verification.go:16-19 | purposes never interfere exactly when none is a prefix of another |
| VerificationCodes.GatewayPurposesApart | common/verification.go:16-19 | the two purposes in use are prefix-free |
| VerificationCodes.RunAgrees | common/verification.go:35-72 | for prefix-free purposes, over every run a code is accepted exactly when the latest registration carries it, is young enough and was not deleted |
| VerificationCodes.StoreMeetsReference | common/verification.go:16-72 | the same for the two purposes in use, from the empty store |
| Floats.NearlyEqualMeaning | controller/ratio_sync.go:48-53 | nearly equal means both finite and less than 1e-9 apart |
| RatioDifferences.CollectModels | controller/ratio_sync.go:542-556 | the models anyone prices |
| RatioDifferences.CompareChannel | controller/ratio_sync.go:606-624 | one channel's entry and whether it differs |
| RatioDifferences.ComparePair | controller/ratio_sync.go:594-652 | whether a pair is included, and its item |
| RatioDifferences.CompareAll | controller/ratio_sync.go:593-654 | the first pass lists exactly the compared pairs |
| RatioDifferences.MarkChannels | controller/ratio_sync.go:656-665 | exactly the names with a real difference are marked |
| RatioDifferences.PruneItem | controller/ratio_sync.go:669-687 | unmarked channels are dropped; kept if anything but the marker is left |
| RatioDifferences.PruneAll | controller/ratio_sync.go:667-693 | every model is pruned and empty models are dropped |
| RatioDifferences.BuildDifferences | controller/ratio_sync.go:536-696 | the listed pairs are the survivors, each under the channels that differ anywhere |
| RatioLaws.ComparedIff | controller/ratio_sync.go:631-652 | a pair is included exactly when some channel reports a difference, a missing local value differing from everything |
| RatioLaws.DifferingIff | controller/ratio_sync.go:656-665 | a name counts as differing exactly when its last channel reports a real difference somewhere |
| RatioLaws.EntriesAt | controller/ratio_sync.go:605-629 | the last channel of a name provides its entry |
| RatioLaws.EntryMeaning | controller/ratio_sync.go:605-626 | on any input the entry of a channel is its own value where there is a real difference, null where only the local side has a value, and the marker in every other case |
| RatioLaws.ConfidencesAt | controller/ratio_sync.go:558-591 | the last channel of a name provides its confidence |
| RatioLaws.ConfidentMeaning | controller/ratio_sync.go:558-591 | a channel is distrusted for a model exactly when it reports a model ratio of 37.5 and a completion ratio of 1, up to 1e-9 |
| RatioLaws.SurvivesIff | controller/ratio_sync.go:667-693 | the exact survivors on any input: some channel reports a difference, and at the last channel of some name there is a real one, or no value although that channel differs elsewhere |
| RatioLaws.SurvivorsExact | controller/ratio_sync.go:536-696 | with distinct names and no null or "same" reports in the compared fields, a pair survives exactly when some channel reports a difference |
| RatioLaws.ListedChannelsExact | controller/ratio_sync.go:626-693 | without null and "same" reports, the last channel of a name is listed for a surviving pair exactly when it reports a difference anywhere: with its own value where it differs, null where only the local side has one, the marker otherwise, beside the local value and its confidence |
| RatioLaws.NullReportVanishes | controller/ratio_sync.go:612-661 | a lone null report is a difference that is not listed |
| RatioLaws.SameReportVanishes | controller/ratio_sync.go:612-661 | a lone report of the text "same" is a difference that is not listed |
| RatioLaws.EqualNamesHide | controller/ratio_sync.go:626-626 | of two channels with one name the first one's difference is lost |
| PriceSelection.VisitProvider | controller/ratio_sync.go:922-944 | after one provider every model holds the better of what was kept and what it offers |
| PriceSelection.SortedKeys | controller/ratio_sync.go:915-919 | the keys, each once, in increasing order |
| PriceSelection.Select | controller/ratio_sync.go:906-948 | the error exactly when no provider has usable prices; otherwise the outcome over the sorted providers, where every kept candidate has the prices of the provider it names and meets the cheapest-non-zero promise |
| PriceSelection.SelectionSound | controller/ratio_sync.go:881-944 | a candidate is kept if any provider has usable prices, with the prices of the provider it names, non-zero if any is, and less than 1e-9 above every non-zero price |
| PriceSelection.OfferMeaning | controller/ratio_sync.go:845-879 | a provider offers a candidate exactly when its input price is valid, its output price is missing or valid, and a zero input has no positive output; it carries exactly those prices, and the cache price if that is valid |
| PriceSelection.WinnerAllFree | controller/ratio_sync.go:891-893 | with only zero prices the first provider by name that offers one is kept |
| PriceSelection.ReverseOrderDrifts | controller/ratio_sync.go:888-893 | in the reverse order nearly equal prices drift past the tolerance |
| Base64Image.DecodeMeaning | controller/promptshot.go:522-548 | decoding succeeds exactly on well-formed padded strings, with the length formula |
| Base64Image.FindPadding | controller/promptshot.go:530-539 | the padding part rejects only malformed strings and finds the padding |
| Base64Image.DecodedLength | controller/promptshot.go:525-548 | accepts exactly the strings that decode to 1..max bytes and returns their number |
| Base64Image.TooLong | controller/promptshot.go:526-528 | the early length check rejects nothing that fits |
| Base64Image.DecodeEncode | controller/promptshot.go:514-519 | every byte string has an encoding that decodes back to it, so no image is out of reach |
| Base64Image.AlphabetTable | controller/promptshot.go:514-519 | the alphabet is A to Z, a to z, 0 to 9, plus and slash, as in section 4 of RFC 4648 |
| Base64Image.DecodePrefix | controller/promptshot.go:589-595 | whole groups decode on their own to the beginning of the image |
| Base64Image.SniffPrefixAgrees | controller/promptshot.go:589-602 | the type seen in the first sixteen characters is that of the whole image |
| Base64Image.MimeMeaning | controller/promptshot.go:612-623 | JPEG and WebP exactly by their signatures, PNG for everything else |
| Base64Image.ResponseMime | controller/promptshot.go:581-602 | the type of every image of 1 byte to the maximum, an error for every other field text |
| OggScan.ReadPage | common/audio.go:208-248 | one turn of the loop: page or not, granule position, end of page |
| OggScan.OpusDuration | common/audio.go:196-254 | on any bytes the scan ends with the highest granule position of the pages recognised, at 48000 per second |
| OggScan.PagesScan | common/audio.go:228-248 | over consecutive pages the scan lands on exactly their beginnings |
| OggScan.GranuleRoundTrip | common/audio.go:229-229 | a signed 64-bit granule position survives its little-endian bytes |
| OggScan.JunkSkipped | common/audio.go:219-226 | leading bytes without the capture pattern are skipped without missing the first page |
| OggScan.WellFormedStream | common/audio.go:207-253 | junk, well-formed pages, junk: all pages and only pages are recognised, and the maximum is theirs |
| StorageLedger.RunBalanced | common/disk_cache_config.go:108-134 | along every run of creations and closes all four counters equal the open storages |
| StorageLedger.RunBounded | common/disk_cache_config.go:108-134 | along every run, removals by the cleanup included, the memory counters equal the open storages and the disk counters lie between zero and them |
| StorageLedger.LifeLeavesNothing | common/body_storage.go:37-72 | a storage that is created and closed leaves all counters as they were |
| BodyStorage.Stats.DecrementDisk | common/disk_cache_config.go:115-122 | both disk counters go down, clamped at zero |
| BodyStorage.Stats.DecrementMemory | common/disk_cache_config.go:131-134 | both memory counters go down, unclamped |
| BodyStorage.Stats.IncrementDisk | common/disk_cache_config.go:109-112 | both disk counters go up |
| BodyStorage.Stats.IncrementMemory | common/disk_cache_config.go:125-128 | both memory counters go up |
| BodyStorage.MemoryStorage.constructor | common/body_storage.go:37-45 | the whole content at offset 0, entered in the counters |
| BodyStorage.DiskStorage.constructor | common/body_storage.go:100-130 | the whole content at offset 0, entered in the counters |
| BodyStorage.MemoryStorage.Read | common/body_storage.go:47-54 | reads of one byte or more behave as the abstract read over content and position |
| BodyStorage.MemoryStorage.Seek | common/body_storage.go:56-63 | position, result and errors of the abstract seek |
| BodyStorage.MemoryStorage.Close | common/body_storage.go:65-72 | the first close takes the storage off the counters, later ones change nothing |
| BodyStorage.MemoryStorage.ReadBytes | common/body_storage.go:74-81 | all bytes, position untouched |
| BodyStorage.DiskStorage.Read | common/body_storage.go:169-176 | reads of one byte or more behave as the same abstract read, so the two kinds agree |
| BodyStorage.DiskStorage.Seek | common/body_storage.go:178-185 | position, result and errors of the same abstract seek |
| BodyStorage.DiskStorage.Close | common/body_storage.go:187-196 | the first close takes the storage off the counters, later ones change nothing |
| BodyStorage.DiskStorage.ReadBytes | common/body_storage.go:198-230 | all bytes, position put back |
| BodyStorage.CreateStorage | common/body_storage.go:241-259 | disk exactly when enabled, large enough, available and working; same content either way |
| BodyStorage.CreateFromReader | common/body_storage.go:262-303 | succeeds exactly when the body is within the limit, with the whole body on every route |
| BodyStorage.RequestContext.GetBodyStorage | common/gin.go:36-96 | hands back the whole body, or the one a middleware put in its place, from offset 0, storing it once and on record; a failure caches nothing, and the request body is consumed unless it was not needed |
| BodyStorage.RequestContext.Cleanup | common/gin.go:99-106 | closes and forgets the storage, and the ledger records it |
| BodyLaws.DrainMeaning | common/body_storage.go:47-54 | reading in pieces of any size yields what lies behind the position |
| BodyLaws.SeekMeaning | common/body_storage.go:56-63 | where a seek from the start, the position or the end leads and what is read there; refused exactly before the start or for another way of counting, and then nothing changes |
| BodyLaws.RunKeepsContent | common/body_storage.go:47-63 | no read or seek changes the content or closes the storage |
| BodyLaws.GetYieldsWholeBody | common/gin.go:36-44 | after any reads, seeks and hand-outs the next hand-out yields the original body |
| BodyLaws.ReadToEnd | common/body_storage.go:47-54 | reading either kind of storage in pieces yields all that lies behind the position |
| BodyLaws.Perform | common/gin.go:36-96 | any sequence of reads, seeks and hand-outs on the real context moves its storage as the abstract file moves and leaves the ledger alone |
| BodyLaws.UseAgain | common/gin.go:36-106 | after any calls a second hand-out reads the whole body, and the cleanup records one close |
| BodyLaws.Lifecycle | common/gin.go:36-106 | hand-out, reading, any use, hand-out, reading, cleanup: both readers get the replacing body if there is one, otherwise the request body exactly when it can be stored; one creation and one close are recorded and the counters are as before |
| DiskCache.RaceFromIdle | common/disk_cache_config.go:109-122 | in every interleaving of checks, commits, aborts, closes, cleanups and their late clamps, with at most k creators under way, each writing at most b bytes and at most e undeclared, counted plus under-way bytes stay within the greater of maximum plus e and b, plus (k-1)*b |
| DiskCache.RaceWithoutCleanups | common/body_storage.go:241-259 | without cleanups the counter is exact and the maximum is exceeded by at most (k-1)*b+e, whatever b is |
| DiskCache.LoadStep | common/disk_cache_config.go:109-122 | conservation: a check adds exactly the bytes it lets in, a commit moves them into the counter, an abort or a close takes exactly them away |
| DiskCache.CleanupAdmitsLarge | controller/performance.go:143-150 | between the subtraction of a cleanup and its clamp, k bodies larger than the maximum are let in, and k*b bytes are under way once the counter is zero |
| DiskCache.RaceBoundIff | common/disk_cache_config.go:109-122 | the overshoot is at most (k-1)*b+e on every run, cleanups included, exactly when b is at most the maximum plus e |
| DiskCache.OneAtATimeNeverExceeds | common/disk_cache_config.go:170-177 | from any exact state within the limit, with one creator at a time, the load stays within maximum plus e without cleanups, and within the greater of that and b with them |
| DiskCache.BoundReached | common/disk_cache_config.go:170-177 | for every k, e and every declared size that fits the maximum, some run reaches that bound exactly |
| DiskCache.UndeclaredBytesOvershoot | common/body_storage.go:266-281 | from every state within the limit one creator overshoots exactly when its declared size fits and its actual size does not |
| DiskCache.OneCreatorSafeIff | middleware/gzip.go:42-67 | a creator keeps every state within the limit exactly when it writes no more than it declared, which a decompressed upload does not promise |
| DiskCache.CounterExact | common/disk_cache_config.go:109-122 | without cleanups every interleaving of the atomic steps keeps the counter exact |
| DiskCache.CounterBetween | common/disk_cache.go:109-138 | in every interleaving of all steps, cleanups included, the quiet counter lies between zero and the disk plus what open storages lost to a cleanup, and once those are closed between zero and the disk |
| DiskCache.RemovalScheduled | common/disk_cache.go:129-135 | conservation: what a close or a cleanup takes off the disk is exactly what is still to be subtracted |
| DiskCache.OnlyWritesAdd | common/body_storage.go:132-196 | only written bytes add to the disk, and closing a storage whose file is gone still schedules its subtraction |
| DiskCache.LateCleanupsNeverOvercount | common/disk_cache.go:109-138 | if files are removed only after they are counted, the quiet counter never exceeds the disk |
| DiskCache.EarlyCleanupIff | common/body_storage.go:132-160 | from every quiet state, removing an uncounted file at p bytes whose creator writes on leaves the counter at the greater of its value and p plus what is written later, and the disk less p; so it is above the disk exactly when that sum is |
| DiskCache.StalledCopyOvercounts | common/body_storage.go:132-160 | a stalled copy whose empty file is removed counts everything it writes afterwards |
| DiskCache.EarlyCleanupOvercounts | common/disk_cache.go:129-135 | removing a file before it is counted leaves the counter too high |
| DiskCache.CleanupOld | common/disk_cache.go:109-138 | which entries remain, what the disk counters become, and that nothing else changes |
| DiskCache.CleanupLeaves | common/disk_cache.go:121-136 | exactly the directories and the files that are unreadable, not too old or not removable are left, in their order and each once |
| DiskCache.CleanedExactly | common/disk_cache.go:129-135 | both counters go down by exactly the files and bytes removed, and stop at zero |
| DiskCache.CleanupKeepsBetween | common/disk_cache.go:121-136 | the loop keeps both counters between zero and the truth |
| DiskCache.CleanCloseBetween | common/disk_cache_config.go:115-122 | a cleanup followed by the close of a storage keeps both counters between zero and what is then on disk, whether or not its file was taken |
| DiskCache.CreateCleanClose | common/body_storage.go:100-196 | the same on the objects: a storage is created, a cleanup runs, the storage is closed |
| QuotaMath.ClampIff | common/quota_math.go:72-93 | results lie in int32; unclamped exactly strictly inside; strict succeeds exactly then with the same number |
| QuotaMath.SaturateMeaning | common/quota_math.go:72-86 | which clamp is reported with which bound, zero for NaN, and otherwise the value less than one closer to zero |
| QuotaMath.SignKept | common/quota_math.go:72-128 | a charge never becomes a credit |
| QuotaMath.TruncateMeaning | common/quota_math.go:82-82 | conversion to int drops the fraction toward zero |
| QuotaMath.ConversionsMonotone | common/quota_math.go:98-128 | truncating and rounding conversions are monotone on everything but NaN |
| QuotaMath.OddSymmetryIff | common/quota_math.go:72-86 | commutes with negation exactly on NaN and strictly within 2^31 |
| QuotaMath.RoundMeaning | common/quota_math.go:115-128 | the nearest integer, halves away from zero, odd in its argument |
| QuotaMath.RoundUnique | common/quota_math.go:115-128 | only one integer meets that description |
| QuotaMath.RoundingsAgree | common/quota_math.go:119-148 | rounding a decimal, given as coefficient and exponent, equals rounding a float of its value; no clamp exactly strictly inside, and then the strict result is the rounded number |
| QuotaMath.DecimalRoundsItsValue | common/quota_math.go:145-147 | half-away rounding of the integer coefficient by quotient and remainder is the nearest integer of the value |
| QuotaMath.RoundOddIff | common/quota_math.go:115-128 | rounding commutes with negation exactly when the rounded number lies strictly within 2^31 |
| MultiplierMicros.ToMicros | controller/agent_plan_quota_pool.go:66-85 | the half-up rounding, failing exactly when no positive 64-bit one exists |
| MultiplierMicros.Unique | controller/agent_plan_quota_pool.go:75-80 | the rounding is unique |
| MultiplierMicros.Monotone | controller/agent_plan_quota_pool.go:66-85 | the conversion of a larger multiplier is never smaller |
| MultiplierMicros.DisplayRoundTrip | controller/agent_plan_quota_pool.go:52-52 | converting the displayed multiplier yields the stored millionths |

## Left out

- HTTP handlers, JSON replies, audit logs, notifications, upstream fetching and everything behind the database layer: plumbing around the modelled state.
- The retry, billing, payment, session and identity controllers: their logic lives in services that are not part of this model.
- Parsing and trimming of a channel's redirect map: the model starts from the normalised map.
- The progress counters, cancellation and notification summary of the background scan: they add nothing to which channels are visited.
- Paging and filtering of the key status list, and polling of the next enabled key: read-only views of the same state.
- Conversion of the chosen price into ratios, and the OpenRouter price import: one-line arithmetic.
- The reverse-prompt response, MIME request validation and the other audio formats.
- RateLimiter.LimitHolds: limit and window are fixed per key during a run; the purge age is the whole seconds of the expiration, without float64 rounding.
- MultiKeyLaws.RunGood: speaks of ordinary keys; `MultiKeyLaws.RunSized`, `MultiKeyLaws.RunCountedIff` and `MultiKeyLaws.SaveConsistentIff` cover any text.
- BodyStorage.DiskStorage.Seek: the whence values 3 and 4, which Linux accepts on files, are modelled as errors.
- RateLimiter.InMemoryRateLimiter.Request: a negative limit, on which Go panics when a queue is first allocated, is outside the model.
- MultiKey.Channel.AppendKeys: the JSON decoding of Vertex AI entries is a parameter.
- MultiKey.Channel.ReportKey: the status reason text of the channel, the parsed key list of cached channels and the caller's early return for an unchanged channel status are not modelled.
- UpstreamSync.Channel.CheckAndPersist: the contents of the abilities table are not modelled, only whether its rebuild fails.
- RatioDifferences.BuildDifferences: upstream values that are themselves lists or objects are not modelled; comparing two of them panics in Go.
- PriceSelection.Select: prices are exact reals, so rounding of the difference in the tolerance test is not modelled.
- BodyStorage.MemoryStorage.ReadBytes: returns a value, so a caller that overwrites the returned bytes of a memory storage is not modelled.
- Resetting the disk counters or setting them from a directory listing, which the administration endpoints offer.
- QuotaMath.RoundingsAgree: the conversion of huge decimals to float64 is not modelled, and lands beyond the clamp either way.
- OggScan.OpusDuration: a reader that returns fewer bytes than asked for before the end is not modelled.
- MultiplierMicros.DisplayRoundTrip: the division is exact; float64 rounding of large stored values is not modelled.
