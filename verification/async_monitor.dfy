/**
 * The asyncio monitor (`ebay_inventory_monitor.py`): no priming scan; every
 * cycle scans the whole feed, stamps new items with the wall clock, and
 * alerts with at most five of them.
 */
module AsyncMonitor {
  import opened Wrappers
  import opened Slices
  import opened Listing
  import opened KnownStore
  import opened Diff
  import opened Messages
  import opened Backoff

  /** Item blocks shown in an alert. */
  const AlertCap: nat := 5

  /** `get_new_items`: scan every listing with the diff step, the time of a
      new item being the wall clock `now`. Nothing in the scan can fail, so
      only an exception from `feedparser.parse` gives no items. */
  function GetNewItems(store: Store, snap: Snapshot, now: string): (d: Detection)
    ensures Extends(store, d.store)
    ensures d.ok <==> snap.Feed?
    ensures snap.ParseError? ==> d.store == store && d.found == []
    ensures snap.Feed? ==> |d.found| == |Unseen(store.Keys, NormalizeAll(snap.entries))|
    ensures snap.Feed? ==>
              forall i :: 0 <= i < |Unseen(store.Keys, NormalizeAll(snap.entries))| ==>
                var e := Unseen(store.Keys, NormalizeAll(snap.entries))[i].entry;
                d.found[i] == Item(e.title, PriceText(e.price), e.link, now)
    ensures snap.Feed? ==> d.store.Keys == store.Keys + Ids(NormalizeAll(snap.entries))
  {
    match snap
    case ParseError => Detection(store, [], false)
    case Feed(es) =>
      var ls := NormalizeAll(es);
      DetectReportsUnseen(store, ls, Wall(now));
      DetectCoversFeed(store, ls, Wall(now));
      Detect(store, ls, Wall(now))
  }

  /** The message `check_and_notify` sends: none when nothing is new,
      otherwise the first five new items in order, with no count in the
      header and no trailer for the ones left out. */
  function AlertMessage(found: seq<Item>): (m: Option<Message>)
    ensures m.None? <==> found == []
    ensures m.Some? ==> m.value.count.None? && m.value.hidden.None?
    ensures m.Some? ==> |m.value.blocks| == if |found| <= AlertCap then |found| else AlertCap
    ensures m.Some? ==> forall i :: 0 <= i < |m.value.blocks| ==> m.value.blocks[i] == found[i]
  {
    if found == [] then None
    else Some(Message(None, Take(found, AlertCap), None))
  }

  /** The startup notice of `run_async`: the polling period in whole
      minutes (rounding down) and the start time; no item count. */
  function StartupNotice(pollInterval: int, startedAt: string): (n: Notice)
    ensures n.Started? && n.currentItems.None? && n.inventory.None?
    ensures n.minutes * 60 <= pollInterval < n.minutes * 60 + 60
    ensures n.startedAt == Some(startedAt)
  {
    Started(pollInterval / 60, None, Some(startedAt), None)
  }

  /** What `run_async` does after a cycle. A normal cycle ends in
      `asyncio.sleep(poll_interval)`, which returns at once for a length
      that is not positive; an exception leads to the 300-second sleep; the
      interrupt ends `run`. */
  function AfterCycle(outcome: Outcome, pollInterval: int): (s: Step)
    ensures s.Stop? <==> outcome == Interrupted
    ensures outcome == Raised ==> s == Wait(ErrorBackoff)
    ensures outcome == Completed ==> s == Wait(if pollInterval > 0 then pollInterval else 0)
  {
    match outcome
    case Interrupted => Stop
    case Raised => Wait(ErrorBackoff)
    case Completed => Wait(if pollInterval > 0 then pollInterval else 0)
  }

  /** Idempotence: a later check on the same feed, at any later time, with
      the store the first one left, reports nothing and changes nothing. */
  lemma GetNewItemsTwice(store: Store, snap: Snapshot, now: string, later: string)
    ensures GetNewItems(GetNewItems(store, snap, now).store, snap, later).found == []
    ensures GetNewItems(GetNewItems(store, snap, now).store, snap, later).store == GetNewItems(store, snap, now).store
  {
    if snap.Feed? {
      var ls := NormalizeAll(snap.entries);
      var d := GetNewItems(store, snap, now);
      forall i | 0 <= i < |ls| ensures ls[i].id in d.store {
        assert ls[i] in ls;
      }
      DetectNothingNew(d.store, ls, Wall(later));
    }
  }
}
