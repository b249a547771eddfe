# eBay listing monitor: change-detection core

This project models the listing-change detection core of an eBay seller monitor. The monitor exists in two variants:

- `ebay_monitor.py`, a threaded loop with a priming scan;
- `ebay_inventory_monitor.py`, an asyncio loop with no priming scan.

Each variant polls the seller's listing feed. It derives an item id from every listing link and keeps a store of known items, a map from id to record. Each check reports the listings whose ids are unknown, and the loop sends a chat message about them. The model takes the result of `feedparser.parse` as an input. It is either a sequence of entries or `ParseError`, which stands for the call raising an exception.

Modules (one per file):

- `Listing`: entries, records, the id derivation `ItemId`, and the record builder `MakeItem`.
- `KnownStore`: the store, and `Extends`, which says a later store keeps every earlier record.
- `Diff`: the diff step shared by both `get_new_items`. It comes with a reference definition `Unseen` and a position-based reference `UnseenBelow`.
- `Priming`: the threaded priming scan. It overwrites existing records.
- `Messages`: messages abstracted to a header count, the item blocks shown and a trailer count.
- `Backoff`: cycle outcomes and the next step of the loop.
- `ThreadedMonitor`: `ebay_monitor.py` (scan caps 50 and 20, inventory report cap 10).
- `AsyncMonitor`: `ebay_inventory_monitor.py` (no scan cap, alert cap 5).
- `Config`: the required-settings check at the entry point of both files.
- `Scheduler`: both loops as a trace of sent messages and sleeps, and whole runs.

Some behaviours of the code are easy to misread; the model follows the code:

- The asyncio variant has no priming scan. Its store starts empty, so its first cycle reports every distinct id of the feed as new (`AsyncFirstCycleReportsAll`).
- The asyncio alert shows at most 5 items and has no "N more not shown" trailer (`AsyncMonitor.AlertMessage`). Only the threaded inventory report has a trailer.
- An exception inside `get_new_items`, from `feedparser.parse` or from a missing publish time, is caught there and gives no items. The loop then sleeps the normal period, not the 300-second error wait (`PollCycle`).
- Failures to deliver a chat message are caught inside the send function. They never reach the loop's error wait.
- Links that differ only in their query string are guaranteed to share an id when the query contains no '/'. The link is split on '/' before it is cut at '?' (`QueryIgnored`, `SlashInQueryMovesId`).

## Model

| member | source | states |
|---|---|---|
| Listing.SegmentStart | ebay_monitor.py:39 | the start of `split('/')[-1]`: no '/' from there to the end, and a '/' just before it unless it is 0 |
| Listing.QueryStart | ebay_monitor.py:39 | the end of `split('?')[0]`: the first '?' at or after the start, or the end of the text |
| Listing.ItemId | ebay_monitor.py:61 | the id is total, contains neither '/' nor '?', and is no longer than the link |
| Listing.ItemIdByPosition | ebay_monitor.py:39 | the id is the text after the last '/' (or from the start) up to the first following '?' (or the end) |
| Listing.QueryIgnored | ebay_monitor.py:61 | appending "?" and a query without '/' to a link does not change its id |
| Listing.SameListingAcrossQueries | ebay_inventory_monitor.py:61 | two links that differ only in '/'-free query strings name the same item |
| Listing.ItemIdIdempotent | ebay_monitor.py:61 | the id of an id is the id itself |
| Listing.SlashInQueryMovesId | ebay_monitor.py:61 | a '/' inside the query moves the id: "itm/42?r=a/b" has id "b" |
| Listing.NormalizeAll | ebay_monitor.py:60-61 | each entry is paired, in order, with the id of its link |
| Listing.MakeItem | ebay_monitor.py:63-69 | the record has the entry's title and link, price "N/A" when `ev_price` is absent, and the publish time or the wall clock; it fails exactly when the publish time is read and missing |
| Diff.Detect | ebay_monitor.py:60-78 | the store only grows and keeps every existing record; a failed scan reports nothing |
| Diff.UnseenSound | ebay_monitor.py:62 | the reference's listings come from the feed, have ids not known before, and have distinct ids |
| Diff.UnseenIds | ebay_monitor.py:60-71 | the reference carries exactly the feed's ids that were not known |
| Diff.UnseenAppend | ebay_monitor.py:60-71 | scanning a concatenation is scanning the first part, then the second with the first part's ids counted as known |
| Diff.UnseenByPosition | ebay_monitor.py:60-71 | the reference lists, in feed order, exactly the positions that hold the first listing of an unknown id |
| Diff.Loadable | ebay_monitor.py:63 | the leading listings that yield a record, stopping at the first that does not |
| Diff.LoadableAll | ebay_monitor.py:63 | the scan reaches the end exactly when every listing yields a record |
| Diff.DetectOk | ebay_monitor.py:56-78 | the scan completes exactly when every unseen listing yields a record |
| Diff.DetectFound | ebay_monitor.py:64-71 | a completed scan reports the records of the unseen listings, in feed order |
| Diff.DetectReportsUnseen | ebay_monitor.py:60-74 | the two facts above together: success condition, count and contents of the report |
| Diff.DetectStoreKeys | ebay_monitor.py:62-70 | success or not, the store gains exactly the ids of the unseen listings before the first failing one |
| Diff.DetectStoreValues | ebay_monitor.py:70 | each added id holds the record of its first listing in the feed (first seen wins) |
| Diff.DetectCoversFeed | ebay_inventory_monitor.py:60-69 | after a completed scan every id of the feed is in the store |
| Diff.DetectTwice | ebay_monitor.py:60-71 | a second scan of the same listings on the resulting store reports nothing and changes nothing, even after a failed first scan |
| Diff.DetectNothingNew | ebay_inventory_monitor.py:62 | when every id of the feed is known, the scan completes, reports nothing and leaves the store alone, whatever the clock |
| Diff.FoundIds | ebay_monitor.py:61-71 | the reported records' ids are the unseen listings' ids, position by position |
| Diff.DetectFoundFresh | ebay_monitor.py:62-71 | the reported ids were unknown before, are stored after, and are pairwise distinct |
| Diff.DetectReportsNewIds | ebay_monitor.py:62-71 | a completed scan reports every feed id that was not known |
| Diff.DetectStoreGainsFound | ebay_monitor.py:62-71 | after a completed scan the store keys are the old keys plus the reported items' ids |
| Diff.FoundStored | ebay_monitor.py:70 | after a completed scan every unseen id is in the store |
| Priming.Prime | ebay_monitor.py:36-46 | one record per scanned listing, in order, built from its publish time; it completes exactly when every listing has one; on failure it stops at the first listing without one, with the records of the listings before it |
| Priming.PrimeStopsAtFailure | ebay_monitor.py:38-46 | a stopped scan leaves the store and the inventory exactly as a completed scan of the listings before the failing one: earlier writes stay, later ones never happen |
| Priming.PrimeKeys | ebay_monitor.py:38-40 | a completed priming scan leaves the old keys plus every scanned id |
| Priming.PrimeKeepsOthers | ebay_monitor.py:40 | ids the scan does not see keep their records |
| Priming.PrimeLastWins | ebay_monitor.py:40 | each id ends with the record of its last scanned listing (overwrite) |
| ThreadedMonitor.FetchCurrentInventory | ebay_monitor.py:32-52 | the first 50 entries; success exactly when each has a publish time; then one record per entry and every scanned id stored; an exception from `feedparser.parse` changes nothing |
| ThreadedMonitor.Scanned | ebay_monitor.py:60 | the first min(20, n) entries, in order, with their ids |
| ThreadedMonitor.GetNewItems | ebay_monitor.py:54-78 | within the first 20 entries, success exactly when every unseen one has a publish time, then the unseen records in feed order; otherwise nothing; the store only grows |
| ThreadedMonitor.GetNewItemsTwice | ebay_monitor.py:54-74 | a second check on an unchanged feed reports nothing and changes nothing |
| ThreadedMonitor.PrimeOverwritesDetectKeeps | ebay_monitor.py:40 | for an id already stored, priming installs the newly built record while the diff step keeps the old one |
| ThreadedMonitor.FormatInventoryMessage | ebay_monitor.py:91-100 | header count is the full length; the first min(10, n) items in order; a trailer exactly when n > 10; blocks plus trailer count add up to n |
| ThreadedMonitor.FormatNewItemsMessage | ebay_monitor.py:102-107 | header count is the length; every item in order; no trailer |
| ThreadedMonitor.StartupNotice | ebay_monitor.py:117-123 | the minutes shown are `poll_interval // 60` (60·m ≤ poll < 60·m + 60), with the item count and the inventory report |
| ThreadedMonitor.AfterCycle | ebay_monitor.py:127-140 | stop exactly on interrupt; 300 after an exception; the poll period after a normal cycle, or 300 when `time.sleep` rejects the period (negative, or above 9223372036 seconds, the int64-nanosecond bound) |
| AsyncMonitor.GetNewItems | ebay_inventory_monitor.py:54-76 | success exactly when `feedparser.parse` did not raise; then the unseen listings of the whole feed in order, stamped with the wall clock, and every feed id stored |
| AsyncMonitor.GetNewItemsTwice | ebay_inventory_monitor.py:60-69 | a later check on an unchanged feed, at any later time, reports nothing and changes nothing |
| AsyncMonitor.AlertMessage | ebay_inventory_monitor.py:78-90 | no message exactly when nothing is new; otherwise the first min(5, n) items in order, no count and no trailer |
| AsyncMonitor.StartupNotice | ebay_inventory_monitor.py:95-101 | the minutes shown are `poll_interval // 60`, with the start time and no item count |
| AsyncMonitor.AfterCycle | ebay_inventory_monitor.py:104-118 | stop exactly on interrupt; 300 after an exception; the poll period after a normal cycle, 0 when it is not positive |
| Config.MissingVars | ebay_monitor.py:144-145 | a name is reported exactly when it is listed and is absent or empty |
| Config.MissingVarsAppend | ebay_inventory_monitor.py:125 | the report keeps the listing order |
| Config.Launch | ebay_monitor.py:147-149 | the monitor starts exactly when all three settings are present and non-empty; otherwise it exits with the non-empty list of missing names |
| Config.EmptyTokenAborts | ebay_monitor.py:145 | an empty token counts as missing and is reported first |
| Scheduler.NewItems | ebay_monitor.py:129 | either variant's check only grows the store |
| Scheduler.Alert | ebay_monitor.py:130-131 | a message exactly when something new was found |
| Scheduler.AfterCycle | ebay_inventory_monitor.py:104-110 | stop exactly on interrupt and 300 after an exception, in both variants |
| Scheduler.NewItemsFresh | ebay_monitor.py:129 | either check reports ids unknown before it, stored after it, pairwise distinct |
| Scheduler.PollCycle | ebay_monitor.py:129-133 | a cycle sends at most one message, exactly when items were found, showing all of them (threaded) or the first five (asyncio), then sleeps the normal delay |
| Scheduler.TurnSleeps | ebay_monitor.py:127-140 | one sleep per turn (300 after an exception, the normal delay otherwise), none at the interrupt, which stops the loop |
| Scheduler.TurnFresh | ebay_inventory_monitor.py:106 | what one turn reports was unknown before it and is known after it, each id once |
| Scheduler.LoopSleeps | ebay_monitor.py:127-140 | failures never end the loop: one sleep per turn up to the first interrupt, 300 after a raising turn and the normal delay after every other |
| Scheduler.LoopNeverRepeats | ebay_monitor.py:127-133 | over the whole loop no id is reported twice, and none that was known when the loop began |
| Scheduler.LoopSendsOnlyListings | ebay_inventory_monitor.py:104-110 | the loop only ever sends batches of listings |
| Scheduler.RunThreadedStarts | ebay_monitor.py:109-123 | anything is sent exactly when the priming scan completes; the first message is the startup notice with the primed inventory, and only listings follow |
| Scheduler.EmptyFirstFeedPrimesNothing | ebay_monitor.py:109-127 | an empty feed at start-up primes nothing: the notice lists zero items and the loop starts from the empty store, as the asyncio monitor does |
| Scheduler.RunThreadedNeverReportsPrimed | ebay_monitor.py:109-133 | no id seen by the priming scan is ever reported, and no id is reported twice |
| Scheduler.RunAsyncStartsOnce | ebay_inventory_monitor.py:95-107 | the startup notice is sent first and never again |
| Scheduler.RunAsyncNeverRepeats | ebay_inventory_monitor.py:104-110 | no id is reported twice over a whole asyncio run |
| Scheduler.AsyncFirstCycleReportsAll | ebay_inventory_monitor.py:60-69 | with the empty initial store, the first cycle reports every distinct id of the feed, each once |
| Scheduler.MissingSettingSendsNothing | ebay_monitor.py:147-152 | with a required setting missing, nothing is ever sent, whichever monitor and whatever the feed |
| Scheduler.SettingsPresentAsyncStarts | ebay_inventory_monitor.py:127-132 | with every setting present, the asyncio monitor's first message is its startup notice |

## Left out

- Feed fetching and parsing (`feedparser`): the parsed feed is an input, and an exception from the parser is the `ParseError` snapshot.
- A feed that cannot be downloaded is not an exception: `feedparser.parse` returns an empty entry list (with its `bozo` flag set), which the model receives as `Feed([])`. At start-up this makes the threaded priming scan succeed with 0 items, and the first later check that reaches the feed reports up to 20 listings as new (`EmptyFirstFeedPrimesNothing`).
- AsyncMonitor.AfterCycle: does not model `asyncio.sleep` failing on a poll period too large to convert to a float (above about 1.8·10^308 seconds); the source would then sleep 300.
- Chat delivery (`send_message`): a send is an event in the trace. Delivery errors are caught and logged by the source and change nothing, so they are not modelled.
- Date formatting (`datetime`, `strftime`, `utcnow`): times are opaque strings. A missing publish time is `None`.
- Sleeping and event-loop management: the loop returns sleep lengths and a stop step.
- Logging and the literal message text: a message is a header count, item blocks and a trailer count.
- Parsing `POLL_INTERVAL` with `int()`, and the error it raises on a non-number: the poll period is an integer input.
- `bot.py`, `ebay_helper.py`, `app.py` and `config.py` are not part of this model. They are the chat command interface, the REST client, the web liveness route and the settings loader.
- The fatal-error handler at the entry point, and the bot construction that could trigger it: with the settings present they are outside the core.
- Listing.MakeItem: the only per-entry failure modelled is a missing publish time. Entries without a link or title attribute would also raise in the source.
- Interrupts arrive only between cycles, as a tick of `Scheduler.Cycle`. An interrupt during a cycle or during a sleep is not modelled. In the threaded variant an interrupt during the 300-second error sleep would escape the loop uncaught.
- A `Fault` tick of `Scheduler.Cycle` stands for an exception escaping a cycle from code outside the model. The model itself never raises inside a cycle.
- AsyncMonitor.GetNewItems: the source reads the wall clock once per new entry. The model uses one reading per cycle.
