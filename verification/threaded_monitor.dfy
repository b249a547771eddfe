/**
 * The threaded monitor (`ebay_monitor.py`): a priming scan of up to 50
 * listings, then a blocking loop that checks the newest 20 listings per
 * cycle and reports the unseen ones.
 */
module ThreadedMonitor {
  import opened Wrappers
  import opened Slices
  import opened Listing
  import opened KnownStore
  import opened Diff
  import opened Priming
  import opened Messages
  import opened Backoff

  /** Listings read by the priming scan. */
  const PrimeLimit: nat := 50
  /** Listings read by each later check. */
  const ScanLimit: nat := 20
  /** Item blocks shown in the inventory report. */
  const InventoryCap: nat := 10
  /** The longest `time.sleep` accepts, in seconds: it converts the period
      to signed 64-bit nanoseconds and raises `OverflowError` beyond this. */
  const MaxSleep: nat := 9223372036

  /** `fetch_current_inventory`: write each of the first 50 listings to the
      store (replacing earlier records) and collect them as the current
      inventory. An exception from `feedparser.parse` changes nothing and
      reports failure. */
  function FetchCurrentInventory(store: Store, snap: Snapshot): (p: Inventory)
    ensures snap.ParseError? ==> !p.ok && p.store == store && p.items == []
    ensures snap.Feed? ==>
              (p.ok <==> forall i :: 0 <= i < |Take(snap.entries, PrimeLimit)| ==>
                           Take(snap.entries, PrimeLimit)[i].published.Some?)
    ensures snap.Feed? && p.ok ==> |p.items| == |Take(snap.entries, PrimeLimit)|
    ensures snap.Feed? && p.ok ==>
              forall i :: 0 <= i < |Take(snap.entries, PrimeLimit)| ==>
                Some(p.items[i]) == MakeItem(Take(snap.entries, PrimeLimit)[i], FeedTime)
    ensures snap.Feed? && p.ok ==> p.store.Keys == store.Keys + Ids(NormalizeAll(Take(snap.entries, PrimeLimit)))
  {
    match snap
    case ParseError => Inventory(store, [], false)
    case Feed(es) =>
      var ls := NormalizeAll(Take(es, PrimeLimit));
      var p := Prime(store, ls);
      if p.ok then PrimeKeys(store, ls); p else p
  }

  /** The listings each check reads: the first 20 entries of the feed. */
  function Scanned(es: seq<Entry>): (ls: seq<Listing>)
    ensures |ls| == if |es| <= ScanLimit then |es| else ScanLimit
    ensures forall i :: 0 <= i < |ls| ==> ls[i] == Normalize(es[i])
  {
    NormalizeAll(Take(es, ScanLimit))
  }

  /** `get_new_items`: scan the first 20 listings with the diff step, the
      time of a new item being its publish time. An exception from
      `feedparser.parse`, or a new listing without a publish time, gives no
      items; what the scan stored before the failure stays stored. */
  function GetNewItems(store: Store, snap: Snapshot): (d: Detection)
    ensures Extends(store, d.store)
    ensures snap.ParseError? ==> d.store == store && d.found == []
    ensures !d.ok ==> d.found == []
    ensures snap.Feed? ==>
              (d.ok <==> forall i :: 0 <= i < |Unseen(store.Keys, Scanned(snap.entries))| ==>
                           Unseen(store.Keys, Scanned(snap.entries))[i].entry.published.Some?)
    ensures snap.Feed? && d.ok ==> |d.found| == |Unseen(store.Keys, Scanned(snap.entries))|
    ensures snap.Feed? && d.ok ==>
              forall i :: 0 <= i < |Unseen(store.Keys, Scanned(snap.entries))| ==>
                Some(d.found[i]) == MakeItem(Unseen(store.Keys, Scanned(snap.entries))[i].entry, FeedTime)
  {
    match snap
    case ParseError => Detection(store, [], false)
    case Feed(es) =>
      var ls := Scanned(es);
      DetectReportsUnseen(store, ls, FeedTime);
      Detect(store, ls, FeedTime)
  }

  /** `format_inventory_message`: a header with the full count, the first
      ten items, and a trailer counting the rest when there are more. */
  function FormatInventoryMessage(inventory: seq<Item>): (m: Message)
    ensures m.count == Some(|inventory|)
    ensures |m.blocks| == if |inventory| <= InventoryCap then |inventory| else InventoryCap
    ensures forall i :: 0 <= i < |m.blocks| ==> m.blocks[i] == inventory[i]
    ensures m.hidden.Some? <==> |inventory| > InventoryCap
    ensures |m.blocks| + m.hidden.GetOr(0) == |inventory|
  {
    Message(Some(|inventory|), Take(inventory, InventoryCap),
            if |inventory| > InventoryCap then Some(|inventory| - InventoryCap) else None)
  }

  /** `format_new_items_message`: a header with the count and one block per
      item, in order, with no cap and no trailer. */
  function FormatNewItemsMessage(items: seq<Item>): (m: Message)
    ensures m.count == Some(|items|)
    ensures m.blocks == items
    ensures m.hidden.None?
  {
    Message(Some(|items|), items, None)
  }

  /** The startup notice of `run`: the current item count, the polling
      period in whole minutes (Python's `//`, rounding down), and the
      inventory report. */
  function StartupNotice(pollInterval: int, inventory: seq<Item>): (n: Notice)
    ensures n.Started? && n.currentItems == Some(|inventory|)
    ensures n.minutes * 60 <= pollInterval < n.minutes * 60 + 60
    ensures n.inventory == Some(FormatInventoryMessage(inventory))
    ensures n.startedAt.None?
  {
    Started(pollInterval / 60, Some(|inventory|), None, Some(FormatInventoryMessage(inventory)))
  }

  /** What `run` does after a cycle. A normal cycle ends in
      `time.sleep(poll_interval)`; `time.sleep` rejects a negative length,
      or one longer than `MaxSleep`, with an exception, which the loop's
      handler treats like any other: the 300-second sleep. The interrupt
      leaves the loop. */
  function AfterCycle(outcome: Outcome, pollInterval: int): (s: Step)
    ensures s.Stop? <==> outcome == Interrupted
    ensures outcome == Raised ==> s == Wait(ErrorBackoff)
    ensures outcome == Completed && 0 <= pollInterval <= MaxSleep ==> s == Wait(pollInterval)
    ensures outcome == Completed && (pollInterval < 0 || pollInterval > MaxSleep) ==> s == Wait(ErrorBackoff)
  {
    match outcome
    case Interrupted => Stop
    case Raised => Wait(ErrorBackoff)
    case Completed => if 0 <= pollInterval <= MaxSleep then Wait(pollInterval) else Wait(ErrorBackoff)
  }

  /** Idempotence: a second check on the same feed, with the store the
      first one left, reports nothing and changes nothing, whether the first
      check completed or failed part-way. */
  lemma GetNewItemsTwice(store: Store, snap: Snapshot)
    ensures GetNewItems(GetNewItems(store, snap).store, snap).found == []
    ensures GetNewItems(GetNewItems(store, snap).store, snap).store == GetNewItems(store, snap).store
  {
    if snap.Feed? {
      DetectTwice(store, Scanned(snap.entries), FeedTime);
    }
  }

  /** The priming scan and the diff step treat an id already in the store
      differently: priming replaces its record with the one built from the
      last listing carrying it, the diff step leaves it alone. */
  lemma PrimeOverwritesDetectKeeps(store: Store, ls: seq<Listing>, i: nat)
    requires Prime(store, ls).ok
    requires i < |ls| && ls[i].id in store && ls[i].id !in Ids(ls[i + 1..])
    ensures Prime(store, ls).store[ls[i].id] == Prime(store, ls).items[i]
    ensures Some(Prime(store, ls).items[i]) == MakeItem(ls[i].entry, FeedTime)
    ensures Detect(store, ls, FeedTime).store[ls[i].id] == store[ls[i].id]
  {
    PrimeLastWins(store, ls);
  }
}
