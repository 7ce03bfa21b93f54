# Website blocker: block registry, rule projection and popup validation

A Dafny model of the logic of a browser extension that blocks chosen
websites for a chosen time. The background controller keeps an ordered
block list of `{website, finishTime}` records and a table from site name to
timer handle. It appends a record on a block request and drops every record
of a site on an unblock request. At install time it restores the list from
storage. It derives one network-blocking rule per record and sends them to
the host's rule engine in one replace call. The popup checks the add-block
form, computes the duration in minutes, and draws the list.

Modules, one per component:

- `Sites` (sites.dfy): the record, the finish-time arithmetic, the by-name
  filter `Without` used by unblocking, and the list that the restore loop
  leaves (`RestoredList`).
- `Rules` (rules.dfy): the rule projection `RulesToAdd`, the replace request
  `ComputeUpdate`, and the host's effect of such a request (`ApplyUpdate`).
- `Background` (background.dfy): class `Registry`. It holds the fields
  `blockedWebsites` (a `seq`), `timeoutMap` (a `map`) and `nextHandle`, the
  handle the host timer service gives out next. Its methods are block,
  unblock, the alarm handler, the restore loop, the rule refresh and the
  message dispatcher. Each method except the rule refresh returns the host
  effects it requests as a `seq<Effect>`: a storage write followed by a rule
  refresh, an alarm, an in-process timer, or a bare rule refresh. The rule
  refresh returns the `RuleUpdate` request instead, and `Rules.ApplyUpdate`
  gives the host's side of it. The clock `now` is a parameter.
- `Popup` (popup.dfy): trimming of the site field, the submit guard and
  duration, how the popup reacts to replies, and the drawn list. It also has
  `SubmitAndDeliver`, which chains a form submission to the dispatcher.
- `Scenarios` (scenarios.dfy): concrete runs on a fresh `Registry`.
- `Wrappers` (wrappers.dfy): `Option`.

`Registry.Valid()` says that every handle in `timeoutMap` was already given
out and that no two sites share a handle. Every method keeps it. With it,
the handle `ArmTimer` records for a site is distinct from every handle
already in the table. The operations that set no timer leave `nextHandle`
as it is.

Behaviour of the code that the model keeps as written:

- The restore loop unblocks by name. An expired entry therefore also removes
  the future entries of the same site. A future entry that is visited after
  an expired entry of the same site still sets a timer for a site that has
  no records left (`Scenarios.RestoreLeavesTimerForRemovedSite`).
- Unblocking deletes the site's `timeoutMap` key but never cancels the timer
  or the alarm. Whichever of them still fires runs the unblock again, and
  each firing requests a storage write and a rule refresh. If nothing of the
  site was added in between, the list stays as it is (`Sites.WithoutTwice`).
  Blocking the site again creates an alarm with the same name, which the
  host treats as a replacement, so after a re-block only the old in-process
  timer is stale. That timer can remove the new block before its finish
  time, when the timer is due first (`Scenarios.StaleTimerEndsLaterBlock`).
- The submit guard rejects only an exact zero for both fields. A negative
  duration is sent. So is a zero total built from non-zero fields, such as
  1 hour and -60 minutes (`Popup.OnlyZeroIsRejected`).
- An empty persisted array counts as present (JavaScript treats `[]` as
  true). Restoring it empties the list and still requests a rule refresh.
  Only a missing value (`None`) changes nothing.

## Model

| member | source | states |
|---|---|---|
| Sites.Without | background.js:76 | every surviving record's site is not one of the removed names, and there are no more records than before |
| Sites.WithoutContent | background.js:76 | unblocking keeps each record whose site differs from the name, as often as it occurred, drops every other record, and keeps the survivors in their original order |
| Sites.WithoutIsUnique | background.js:76 | any order-preserving selection with exactly that content equals the filter result, so the filter leaves exactly the subsequence of the other sites' records |
| Sites.SubsequenceMultiset | background.js:76 | a subsequence of the list holds each record at most as often as the list does |
| Sites.WithoutTwice | background.js:74-85 | unblocking by one set of names and then another equals unblocking by their union, so unblocking a site twice equals unblocking it once |
| Sites.WithoutAbsent | background.js:76 | unblocking a site that no record carries leaves the list unchanged |
| Sites.WithoutAppend | background.js:76 | the filter distributes over concatenation of lists |
| Sites.UnblockAfterBlock | background.js:51-85 | after a block appends a record, unblocking that record's site drops it along with the site's earlier records, and unblocking any other site keeps it at the end |
| Sites.RestoredListSurvivors | background.js:89-106 | a persisted record survives restore iff no persisted record with the same site has finishTime - now <= 0, and survivors keep their order |
| Sites.ExpiredNamesStep | background.js:95-104 | visiting one more persisted entry adds its site to the expired names exactly when its remaining time is not positive |
| Rules.ProjectionShape | background.js:8-30 | the projection has one rule per record; rule i has id i+1, priority 1, action block, resource types [main_frame] and urlFilter equal to record i's site |
| Rules.ProjectionIds | background.js:28-30 | the projection's ids are exactly 1..n and strictly increase in list order, so they are pairwise distinct |
| Rules.ProjectionCorrespondence | background.js:28-30 | every record has a blocking rule for its site, and every rule blocks the site of some record |
| Rules.ProjectionAppend | background.js:28-30 | appending a record appends one rule numbered n+1 for its site and leaves the earlier rules unchanged |
| Rules.ProjectionAfterUnblock | background.js:76 | after unblocking a set of names, no projected rule's urlFilter is one of them |
| Rules.KeepUnlisted | background.js:33-37 | the host keeps after a replace exactly the installed rules whose id is not listed for removal |
| Rules.UpdateReplacesAll | background.js:23-37 | the replace request lists for removal exactly the ids of the installed rules (no other id), and once applied the installed rules are exactly the projection of the block list |
| Background.LastVisit | background.js:94-106 | the result is the last visited entry with the given site, or None exactly when no visited entry has that site |
| Background.LastVisitStep | background.js:94 | visiting one more entry makes it its site's last visit and changes no other site's last visit |
| Background.TimersAfterArm | background.js:98-101 | visiting a future entry and setting its site's key to a new handle keeps the timer table as the restore loop specifies it |
| Background.TimersAfterDrop | background.js:102-105 | visiting an expired entry and deleting its site's key keeps the timer table as specified |
| Background.RestoreListStep | background.js:102-105 | visiting an expired entry unblocks its site from the live list; visiting another entry leaves the live list alone |
| Background.RestoredSurvivorsHaveTimers | background.js:89-106 | after restore, the site of every surviving record is a timer key |
| Background.VisitEffectsAt | background.js:94-106 | the restore loop requests exactly one effect per persisted entry, in order: a timer for a future entry, or a storage write of the reduced list for an expired one |
| Background.Registry.constructor | background.js:2-5 | the block list and the timer table start empty |
| Background.Registry.BlockWebsite | background.js:51-66 | appends exactly one record {website, now + duration*60000} at the end and leaves earlier records and the timer table unchanged, with no de-duplication; requests a storage write of the new list and an alarm named by the site at the record's finishTime |
| Background.Registry.UnblockWebsite | background.js:74-85 | the list becomes the filter of the old list by the site; only the site's key leaves timeoutMap, and every other key and value is unchanged; requests a storage write of the new list |
| Background.Registry.OnAlarm | background.js:69-71 | a fired alarm unblocks exactly the site it is named after |
| Background.Registry.ArmTimer | background.js:99-101 | the site's timer key is set to a newly given-out handle, and nothing else changes; requests a timer for the remaining time |
| Background.Registry.VisitEntry | background.js:94-106 | for a future entry: arms a timer for its site; for an expired entry (remaining time <= 0): unblocks its site |
| Background.Registry.VisitPersisted | background.js:94-106 | visiting entry i moves the state from what the loop leaves after entries 0..i-1 to what it leaves after entries 0..i |
| Background.Registry.RestoreEntries | background.js:91-106 | the live list becomes the persisted list without the sites that have an expired entry; key k is in timeoutMap iff the last persisted entry for k is in the future, or no entry names k and k was a key before; a key that no entry names keeps its handle; one new handle is handed out per future entry; the effects are exactly the per-entry effects |
| Background.Registry.Restore | background.js:88-112 | if nothing is persisted, the list, the timer table and the next handle are unchanged and no effect is requested; otherwise the restore loop runs, handing out one new handle per future entry, and a final rule refresh follows |
| Background.Registry.RuleRefresh | background.js:21-47 | the request adds the projection of the current list and lists for removal exactly the ids of the installed rules, so once applied the installed rules are exactly that projection |
| Background.Registry.HandleMessage | background.js:118-131 | the reply is `ReplyTo` of the message and the list before it; blockWebsite and unblockWebsite perform their operation, hand out no timer handle, and reply {success: true}; getBlockedWebsites replies with the current list and changes nothing; any other action gets no reply and changes nothing |
| Popup.LeadingSpace | popup.js:14 | the counted prefix is all white space and is followed by a non-white-space character or the end |
| Popup.TrailingSpace | popup.js:14 | the counted suffix is all white space and is preceded by a non-white-space character or the start |
| Popup.TrimSpec | popup.js:14 | the trimmed site is an infix of the field with only white space removed on both sides, and it neither starts nor ends with white space |
| Popup.TrimEmpty | popup.js:14 | the trimmed site is empty exactly when the field holds only white space |
| Popup.Submit | popup.js:14-30 | a form is rejected iff its site is only white space, or its hours and minutes are both 0 with a blank field counting as 0; otherwise it sends a blockWebsite request for the trimmed, non-empty site with duration hours*60 + minutes |
| Popup.BlankDurationRejected | popup.js:15-19 | blank hour and minute fields count as 0, so such a form is rejected |
| Popup.OnlyZeroIsRejected | popup.js:19 | hours = -1 with minutes = 0 is sent with duration -60, and hours = 1 with minutes = -60 is sent with duration 0 |
| Popup.ReplyGating | popup.js:31-38 | for every message and list, the dispatcher's reply makes the popup blank the form and refresh, and makes the unblock callback refresh, exactly when the message is a block or unblock request; a list reply or no reply does neither and keeps the form |
| Popup.UnblockAndDeliver | popup.js:99-110 | the unblock button's request, delivered to the dispatcher, drops every record of the site and only the site's timer key, hands out no timer handle, requests one storage write, and its reply makes the popup refresh the list |
| Popup.LabelAgreesWithRestore | popup.js:68-80 | every record that survives restore is labelled "until" its own finishTime, and no record of a site that has an entry labelled "Time expired" survives restore |
| Popup.Render | popup.js:48-56 | a missing reply, a reply without a list, or an empty list draws the placeholder; otherwise one item is drawn per record, in list order, with that record's site, labelled "Time expired" exactly when finishTime - now <= 0 and otherwise "until" that record's own finishTime |
| Popup.SubmitAndDeliver | popup.js:14-38 | an accepted form appends a record for the trimmed site with finishTime = now + (hours*60 + minutes)*60000, keeps the timer table and the next handle, requests the storage write and then an alarm named by the trimmed site at that finishTime, and its reply blanks the form and refreshes the list; a rejected form sends nothing and changes nothing |
| Scenarios.TwoSitesThenUnblockOne | background.js:118-131 | after blocking a.com and b.com, two rules with distinct ids are installed; after unblocking a.com, the one remaining rule blocks b.com |
| Scenarios.BlockThenUnblock | background.js:118-131 | blocking example.com for 30 minutes lists one record ending 30 minutes later; unblocking it leaves no rules installed |
| Scenarios.RestoreLeavesTimerForRemovedSite | background.js:94-106 | restoring [a.com expired, a.com in the future] removes both records but leaves a timer key for a.com |
| Scenarios.StaleTimerEndsLaterBlock | background.js:74-106 | restore sets a 60-minute timer for a.com; unblocking a.com requests only a storage write, with no cancellation; a.com blocked again for 120 minutes is removed when that timer runs unblockWebsite |

## Left out

- Host APIs (storage get/set, dynamic-rule get/update, alarms, messaging) are not performed. Each one appears as an `Effect` value or as a parameter, such as the installed rules passed to `RuleRefresh` and the persisted value passed to `Restore`. The one exception is the host's replace call, which `Rules.ApplyUpdate` models for an accepted update only. A rejected update (background.js:39-44) leaves the host's rules as they were, and that case is not modelled.
- Asynchrony is not modelled. This covers callback order, the order of a storage write against the rule refresh it triggers, and the list that a delayed rule refresh reads.
- Timer and alarm firing and their timing are not modelled. A fired timer runs `UnblockWebsite` for its site (background.js:99-101), which `Scenarios.StaleTimerEndsLaterBlock` calls directly. Handles come from a counter.
- The host's limit on timer delays is not modelled. A `setTimeout` delay above 2^31-1 ms (about 24.8 days) fires almost at once (background.js:99-101). A restored block that far in the future is therefore unblocked soon after restore, while the model only records `StartTimer` with the full delay.
- The clock is one `now` for a whole restore loop and for a whole list render. The source reads the clock once per entry in both places (background.js:95, popup.js:68).
- `parseInt` edge cases (NaN, non-numeric text) are not modelled. The number fields are already-parsed integers, and a blank field is `None`.
- Popup.IsWhitespace: covers ASCII white space, no-break space, U+2028, U+2029 and U+FEFF only. The source trims every Unicode space separator, so this is weaker than `String.prototype.trim`.
- The `toLocaleTimeString` formatting of the finish time is not modelled. The label carries the raw finishTime.
- The error logging after a rejected rule update (background.js:39-44) is not modelled. It only logs.
- The DOM is not modelled: element construction, `innerHTML`, event listeners, `alert`.
- The popup's listener for `updateBlockedList` messages (popup.js:113-118) is left out, because the background code never sends that message.
- JavaScript numbers are mathematical integers here. Floating-point behaviour is not modelled.
- Message fields that are missing in JavaScript (`undefined`) are not modelled. Every `Message` carries an action, a site and a duration.
- The `onInstalled` registration (background.js:115) and the `return true` of the message listener, which keeps the reply channel open, are left out.
