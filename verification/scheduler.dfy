/**
 * The monitoring loop of both monitors as a trace of what it sends and how
 * long it sleeps. Cycles never overlap: each cycle runs to its end, then
 * the loop sleeps, then the next cycle starts. The user's interrupt arrives
 * between cycles and ends the loop.
 */
module Scheduler {
  import opened Wrappers
  import opened Slices
  import opened Listing
  import opened KnownStore
  import opened Diff
  import opened Priming
  import opened Messages
  import opened Backoff
  import ThreadedMonitor
  import AsyncMonitor
  import Config

  /** The two monitors: `ebay_monitor.py` and `ebay_inventory_monitor.py`. */
  datatype Variant = Threaded | Async

  /** What happens in one turn of the loop: a cycle runs on the result of
      `feedparser.parse`, with the wall clock reading `now`; or a cycle raises an
      exception the monitor's own handlers do not catch (it comes from code
      outside this model); or the user interrupts. */
  datatype Tick = Poll(snap: Snapshot, now: string) | Fault | Interrupt

  /** What the loop does that the outside world sees: a message handed to
      the chat client (whose delivery errors are caught and logged, never
      returned), or a sleep. */
  datatype Event = Send(notice: Notice) | Sleep(seconds: nat)

  /** The state after one turn, what it did, and what comes next. */
  datatype Turn = Turn(store: Store, events: seq<Event>, next: Step)

  function NewItems(v: Variant, store: Store, snap: Snapshot, now: string): (d: Detection)
    ensures Extends(store, d.store)
  {
    match v
    case Threaded => ThreadedMonitor.GetNewItems(store, snap)
    case Async => AsyncMonitor.GetNewItems(store, snap, now)
  }

  /** The message a cycle sends about the items it found, if any. */
  function Alert(v: Variant, found: seq<Item>): (m: Option<Message>)
    ensures m.None? <==> found == []
  {
    match v
    case Threaded => if found == [] then None else Some(ThreadedMonitor.FormatNewItemsMessage(found))
    case Async => AsyncMonitor.AlertMessage(found)
  }

  function AfterCycle(v: Variant, outcome: Outcome, pollInterval: int): (s: Step)
    ensures s.Stop? <==> outcome == Interrupted
    ensures outcome == Raised ==> s == Wait(ErrorBackoff)
  {
    match v
    case Threaded => ThreadedMonitor.AfterCycle(outcome, pollInterval)
    case Async => AsyncMonitor.AfterCycle(outcome, pollInterval)
  }

  /** The sleep that follows `next`, if the loop goes on. */
  function SleepFor(next: Step): seq<Event>
  {
    if next.Wait? then [Sleep(next.seconds)] else []
  }

  /** One turn of the loop. */
  function Cycle(v: Variant, store: Store, pollInterval: int, tick: Tick): Turn
  {
    match tick
    case Interrupt => Turn(store, [], AfterCycle(v, Interrupted, pollInterval))
    case Fault =>
      var next := AfterCycle(v, Raised, pollInterval);
      Turn(store, SleepFor(next), next)
    case Poll(snap, now) =>
      var d := NewItems(v, store, snap, now);
      var next := AfterCycle(v, Completed, pollInterval);
      var sent := match Alert(v, d.found) case None => [] case Some(m) => [Send(Listings(m))];
      Turn(d.store, sent + SleepFor(next), next)
  }

  /** The loop over the turns in `ticks`, until an interrupt. */
  function Loop(v: Variant, store: Store, pollInterval: int, ticks: seq<Tick>): seq<Event>
    decreases |ticks|
  {
    if ticks == [] then []
    else
      var t := Cycle(v, store, pollInterval, ticks[0]);
      t.events + (if t.next.Stop? then [] else Loop(v, t.store, pollInterval, ticks[1..]))
  }

  /** `run` of the threaded monitor: the priming scan on the feed `first`;
      if it fails, nothing more happens; otherwise the startup notice, then
      the loop with the primed store. */
  function RunThreaded(pollInterval: int, first: Snapshot, ticks: seq<Tick>): seq<Event>
  {
    var p := ThreadedMonitor.FetchCurrentInventory(map[], first);
    if !p.ok then []
    else [Send(ThreadedMonitor.StartupNotice(pollInterval, p.items))] + Loop(Threaded, p.store, pollInterval, ticks)
  }

  /** `run_async` of the asyncio monitor: the startup notice, then the loop
      with an empty store (there is no priming scan). */
  function RunAsync(pollInterval: int, startedAt: string, ticks: seq<Tick>): seq<Event>
  {
    [Send(AsyncMonitor.StartupNotice(pollInterval, startedAt))] + Loop(Async, map[], pollInterval, ticks)
  }

  /** The entry point: the settings check, then `run` of the chosen
      monitor. When a required setting is missing the process exits
      without a monitor, so nothing is ever sent. */
  function Main(v: Variant, env: Config.Env, pollInterval: int, first: Snapshot, startedAt: string, ticks: seq<Tick>): seq<Event>
  {
    if Config.Launch(env).Abort? then []
    else match v
      case Threaded => RunThreaded(pollInterval, first, ticks)
      case Async => RunAsync(pollInterval, startedAt, ticks)
  }

  // ---------------------------------------------------------------------
  // Views of a trace

  /** The items shown in the listing batches of `events`, in order. */
  function Reported(events: seq<Event>): seq<Item>
  {
    if events == [] then []
    else
      (if events[0].Send? && events[0].notice.Listings? then events[0].notice.message.blocks else [])
      + Reported(events[1..])
  }

  /** The sleep lengths of `events`, in order. */
  function Sleeps(events: seq<Event>): seq<nat>
  {
    if events == [] then []
    else (if events[0].Sleep? then [events[0].seconds] else []) + Sleeps(events[1..])
  }

  /** The number of turns before the first interrupt. */
  function TurnsBeforeInterrupt(ticks: seq<Tick>): (n: nat)
    ensures n <= |ticks|
    ensures forall i :: 0 <= i < n ==> !ticks[i].Interrupt?
    ensures n < |ticks| ==> ticks[n].Interrupt?
  {
    if ticks == [] || ticks[0].Interrupt? then 0 else 1 + TurnsBeforeInterrupt(ticks[1..])
  }

  /** The sleep after a normal cycle. */
  function NormalDelay(v: Variant, pollInterval: int): nat
  {
    AfterCycle(v, Completed, pollInterval).seconds
  }

  lemma {:induction false} ReportedConcat(a: seq<Event>, b: seq<Event>)
    ensures Reported(a + b) == Reported(a) + Reported(b)
  {
    if a != [] {
      assert (a + b)[1..] == a[1..] + b;
      ReportedConcat(a[1..], b);
    } else {
      assert a + b == b;
    }
  }

  lemma {:induction false} SleepsConcat(a: seq<Event>, b: seq<Event>)
    ensures Sleeps(a + b) == Sleeps(a) + Sleeps(b)
  {
    if a != [] {
      assert (a + b)[1..] == a[1..] + b;
      SleepsConcat(a[1..], b);
    } else {
      assert a + b == b;
    }
  }

  lemma IdsOfConcat(a: seq<Item>, b: seq<Item>)
    ensures IdsOf(a + b) == IdsOf(a) + IdsOf(b)
  {
  }

  // ---------------------------------------------------------------------
  // One cycle

  /** The items a cycle finds have ids that were unknown before it, are
      known after it, and are pairwise distinct; the store only grows. */
  lemma NewItemsFresh(v: Variant, store: Store, snap: Snapshot, now: string)
    ensures ReportsFresh(store, NewItems(v, store, snap, now))
  {
    if snap.Feed? {
      if v.Threaded? {
        var ls := ThreadedMonitor.Scanned(snap.entries);
        assert NewItems(v, store, snap, now) == Detect(store, ls, FeedTime);
        DetectFoundFresh(store, ls, FeedTime);
      } else {
        var ls := NormalizeAll(snap.entries);
        assert NewItems(v, store, snap, now) == Detect(store, ls, Wall(now));
        DetectFoundFresh(store, ls, Wall(now));
      }
    }
  }

  /** A cycle on a parsed (or failed) feed sends at most one message, and
      one exactly when it found new items; the message shows the found items
      (all of them in the threaded monitor, the first five in the asyncio
      one); then the loop sleeps the normal delay. */
  lemma {:induction false} PollCycle(v: Variant, store: Store, pollInterval: int, snap: Snapshot, now: string)
    ensures var t := Cycle(v, store, pollInterval, Poll(snap, now));
            var d := NewItems(v, store, snap, now);
            && t.store == d.store
            && t.next == Wait(NormalDelay(v, pollInterval))
            && (d.found == [] ==> t.events == [Sleep(NormalDelay(v, pollInterval))])
            && (d.found != [] ==> |t.events| == 2 && t.events[0].Send? && t.events[0].notice.Listings?
                                  && t.events[1] == Sleep(NormalDelay(v, pollInterval)))
            && Reported(t.events) == (if v.Threaded? then d.found else Take(d.found, AsyncMonitor.AlertCap))
  {
    var t := Cycle(v, store, pollInterval, Poll(snap, now));
    var d := NewItems(v, store, snap, now);
    var next := AfterCycle(v, Completed, pollInterval);
    assert SleepFor(next) == [Sleep(next.seconds)];
    ReportedConcat(if d.found == [] then [] else [t.events[0]], SleepFor(next));
    if d.found != [] {
      assert Reported([t.events[0]]) == t.events[0].notice.message.blocks + Reported([]);
    }
  }

  /** The sleeps of one turn: none at an interrupt, which stops the loop;
      otherwise exactly one, 300 seconds after a turn that raised and the
      normal delay after a completed cycle. */
  lemma TurnSleeps(v: Variant, store: Store, pollInterval: int, tick: Tick)
    ensures var t := Cycle(v, store, pollInterval, tick);
            && (t.next.Stop? <==> tick.Interrupt?)
            && Sleeps(t.events) == if tick.Interrupt? then []
                                   else if tick.Fault? then [ErrorBackoff]
                                   else [NormalDelay(v, pollInterval)]
  {
    var t := Cycle(v, store, pollInterval, tick);
    match tick
    case Interrupt =>
    case Fault =>
      assert t.events == [Sleep(ErrorBackoff)];
    case Poll(snap, now) =>
      PollCycle(v, store, pollInterval, snap, now);
      if |t.events| == 2 {
        SleepsConcat([t.events[0]], [t.events[1]]);
        assert t.events == [t.events[0]] + [t.events[1]];
      }
  }

  lemma FreshPrefix(before: Store, after: Store, a: seq<Item>, b: seq<Item>)
    requires Fresh(before, after, b)
    requires |a| <= |b| && forall i :: 0 <= i < |a| ==> a[i] == b[i]
    ensures Fresh(before, after, a)
  {
    var ia, ib := IdsOf(a), IdsOf(b);
    assert forall i :: 0 <= i < |ia| ==> ia[i] == ib[i];
  }

  /** The items one turn reports have ids that were unknown before it, are
      known after it, and are pairwise distinct; the store only grows. */
  lemma TurnFresh(v: Variant, store: Store, pollInterval: int, tick: Tick)
    ensures var t := Cycle(v, store, pollInterval, tick);
            Extends(store, t.store) && Fresh(store, t.store, Reported(t.events))
  {
    var t := Cycle(v, store, pollInterval, tick);
    match tick
    case Interrupt =>
      assert Reported(t.events) == [];
    case Fault =>
      assert Reported(t.events) == [];
    case Poll(snap, now) =>
      var d := NewItems(v, store, snap, now);
      PollCycle(v, store, pollInterval, snap, now);
      NewItemsFresh(v, store, snap, now);
      assert Fresh(store, d.store, d.found);
      FreshPrefix(store, d.store, Reported(t.events), d.found);
  }

  // ---------------------------------------------------------------------
  // The loop

  /** One turn's sleep followed by the sleeps of the turns after it. */
  lemma SleepsStep(v: Variant, pollInterval: int, ticks: seq<Tick>, first: seq<nat>, rest: seq<nat>)
    requires ticks != [] && !ticks[0].Interrupt?
    requires first == [if ticks[0].Fault? then ErrorBackoff else NormalDelay(v, pollInterval)]
    requires |rest| == TurnsBeforeInterrupt(ticks[1..])
    requires forall i :: 0 <= i < |rest| ==>
               rest[i] == if ticks[1..][i].Fault? then ErrorBackoff else NormalDelay(v, pollInterval)
    ensures |first + rest| == TurnsBeforeInterrupt(ticks)
    ensures forall i :: 0 <= i < |first + rest| ==>
              (first + rest)[i] == if ticks[i].Fault? then ErrorBackoff else NormalDelay(v, pollInterval)
  {
    forall i | 0 <= i < |first + rest|
      ensures (first + rest)[i] == if ticks[i].Fault? then ErrorBackoff else NormalDelay(v, pollInterval)
    {
      if i > 0 {
        assert (first + rest)[i] == rest[i - 1];
        assert ticks[1..][i - 1] == ticks[i];
      }
    }
  }

  /** Failures never end the loop: it sleeps once per turn up to the first
      interrupt, 300 seconds after a turn that raised and the normal delay
      after every other one, and stops at the interrupt. */
  lemma {:induction false} LoopSleeps(v: Variant, store: Store, pollInterval: int, ticks: seq<Tick>)
    ensures |Sleeps(Loop(v, store, pollInterval, ticks))| == TurnsBeforeInterrupt(ticks)
    ensures forall i :: 0 <= i < |Sleeps(Loop(v, store, pollInterval, ticks))| ==>
              Sleeps(Loop(v, store, pollInterval, ticks))[i] ==
                if ticks[i].Fault? then ErrorBackoff else NormalDelay(v, pollInterval)
    decreases |ticks|
  {
    if ticks != [] {
      var t := Cycle(v, store, pollInterval, ticks[0]);
      TurnSleeps(v, store, pollInterval, ticks[0]);
      if t.next.Stop? {
        assert Loop(v, store, pollInterval, ticks) == t.events + [];
        assert t.events + [] == t.events;
      } else {
        var rest := Loop(v, t.store, pollInterval, ticks[1..]);
        assert Loop(v, store, pollInterval, ticks) == t.events + rest;
        SleepsConcat(t.events, rest);
        LoopSleeps(v, t.store, pollInterval, ticks[1..]);
        SleepsStep(v, pollInterval, ticks, Sleeps(t.events), Sleeps(rest));
      }
    }
  }

  /** The ids of `items` are all unknown in `store` and pairwise distinct. */
  ghost predicate NoRepeats(store: Store, items: seq<Item>)
  {
    && (forall i :: 0 <= i < |IdsOf(items)| ==> IdsOf(items)[i] !in store)
    && (forall i, j :: 0 <= i < j < |IdsOf(items)| ==> IdsOf(items)[i] != IdsOf(items)[j])
  }

  /** Fresh items followed by items unknown to the later store and
      pairwise distinct are, together, unknown to the earlier store and
      pairwise distinct. */
  lemma JoinFresh(before: Store, mid: Store, h: seq<Item>, l: seq<Item>)
    requires Extends(before, mid) && Fresh(before, mid, h) && NoRepeats(mid, l)
    ensures NoRepeats(before, h + l)
  {
    IdsOfConcat(h, l);
    var ih, il := IdsOf(h), IdsOf(l);
    assert forall i :: 0 <= i < |il| ==> il[i] !in before;
  }

  /** No item id is reported twice over the whole loop, and none that was
      in the store when the loop began: once seen, an id stays known. */
  lemma {:induction false} LoopNeverRepeats(v: Variant, store: Store, pollInterval: int, ticks: seq<Tick>)
    ensures NoRepeats(store, Reported(Loop(v, store, pollInterval, ticks)))
    decreases |ticks|
  {
    if ticks != [] {
      var t := Cycle(v, store, pollInterval, ticks[0]);
      TurnFresh(v, store, pollInterval, ticks[0]);
      if t.next.Stop? {
        assert Loop(v, store, pollInterval, ticks) == t.events + [];
        JoinFresh(store, t.store, Reported(t.events), []);
        assert Reported(t.events) + [] == Reported(t.events);
        assert t.events + [] == t.events;
      } else {
        var rest := Loop(v, t.store, pollInterval, ticks[1..]);
        assert Loop(v, store, pollInterval, ticks) == t.events + rest;
        ReportedConcat(t.events, rest);
        LoopNeverRepeats(v, t.store, pollInterval, ticks[1..]);
        JoinFresh(store, t.store, Reported(t.events), Reported(rest));
      }
    }
  }

  /** Every message in `events` is a batch of listings. */
  ghost predicate OnlyListings(events: seq<Event>)
  {
    forall i :: 0 <= i < |events| && events[i].Send? ==> events[i].notice.Listings?
  }

  lemma OnlyListingsConcat(a: seq<Event>, b: seq<Event>)
    requires OnlyListings(a) && OnlyListings(b)
    ensures OnlyListings(a + b)
  {
    forall i | 0 <= i < |a + b| && (a + b)[i].Send? ensures (a + b)[i].notice.Listings? {
      if i >= |a| {
        assert (a + b)[i] == b[i - |a|];
      }
    }
  }

  /** The loop itself only ever sends batches of listings: the startup
      notice is sent once, before it. */
  lemma {:induction false} LoopSendsOnlyListings(v: Variant, store: Store, pollInterval: int, ticks: seq<Tick>)
    ensures OnlyListings(Loop(v, store, pollInterval, ticks))
    decreases |ticks|
  {
    if ticks != [] {
      var t := Cycle(v, store, pollInterval, ticks[0]);
      assert OnlyListings(t.events) by {
        match ticks[0]
        case Interrupt =>
        case Fault =>
        case Poll(snap, now) =>
          PollCycle(v, store, pollInterval, snap, now);
      }
      if t.next.Stop? {
        assert Loop(v, store, pollInterval, ticks) == t.events + [];
        assert t.events + [] == t.events;
      } else {
        var rest := Loop(v, t.store, pollInterval, ticks[1..]);
        assert Loop(v, store, pollInterval, ticks) == t.events + rest;
        LoopSendsOnlyListings(v, t.store, pollInterval, ticks[1..]);
        OnlyListingsConcat(t.events, rest);
      }
    }
  }

  // ---------------------------------------------------------------------
  // Whole runs

  /** The startup notice carries no listings. */
  lemma StartedReportsNothing(n: Notice, rest: seq<Event>)
    requires n.Started?
    ensures Reported([Send(n)] + rest) == Reported(rest)
  {
    ReportedConcat([Send(n)], rest);
    assert Reported([Send(n)]) == [] + Reported([]);
  }

  /** The threaded monitor sends anything at all only after a complete
      priming scan, and then its first message is the startup notice with
      the primed inventory. */
  lemma RunThreadedStarts(pollInterval: int, first: Snapshot, ticks: seq<Tick>)
    ensures RunThreaded(pollInterval, first, ticks) != [] <==> ThreadedMonitor.FetchCurrentInventory(map[], first).ok
    ensures ThreadedMonitor.FetchCurrentInventory(map[], first).ok ==>
              && RunThreaded(pollInterval, first, ticks)[0]
                   == Send(ThreadedMonitor.StartupNotice(pollInterval, ThreadedMonitor.FetchCurrentInventory(map[], first).items))
              && OnlyListings(RunThreaded(pollInterval, first, ticks)[1..])
  {
    var p := ThreadedMonitor.FetchCurrentInventory(map[], first);
    if p.ok {
      var rest := Loop(Threaded, p.store, pollInterval, ticks);
      assert RunThreaded(pollInterval, first, ticks)[1..] == rest;
      LoopSendsOnlyListings(Threaded, p.store, pollInterval, ticks);
    }
  }

  /** A feed that could not be downloaded at start-up parses as an empty
      entry list, not as an exception: the priming scan completes with no
      items, the notice reports zero current items, and the loop starts
      from the empty store, so the first check that reaches the feed reports
      its unseen listings as new. */
  lemma EmptyFirstFeedPrimesNothing(pollInterval: int, ticks: seq<Tick>)
    ensures RunThreaded(pollInterval, Feed([]), ticks)
              == [Send(ThreadedMonitor.StartupNotice(pollInterval, []))] + Loop(Threaded, map[], pollInterval, ticks)
  {
    var p := ThreadedMonitor.FetchCurrentInventory(map[], Feed([]));
    assert Take<Entry>([], ThreadedMonitor.PrimeLimit) == [];
    assert p == Inventory(map[], [], true);
  }

  /** No listing seen by the threaded monitor's priming scan is ever
      reported as new, and no id is reported twice. */
  lemma RunThreadedNeverReportsPrimed(pollInterval: int, first: Snapshot, ticks: seq<Tick>)
    requires first.Feed?
    ensures forall i :: 0 <= i < |IdsOf(Reported(RunThreaded(pollInterval, first, ticks)))| ==>
              IdsOf(Reported(RunThreaded(pollInterval, first, ticks)))[i]
                !in Ids(NormalizeAll(Take(first.entries, ThreadedMonitor.PrimeLimit)))
    ensures NoRepeats(map[], Reported(RunThreaded(pollInterval, first, ticks)))
  {
    var p := ThreadedMonitor.FetchCurrentInventory(map[], first);
    if p.ok {
      var notice := ThreadedMonitor.StartupNotice(pollInterval, p.items);
      var rest := Loop(Threaded, p.store, pollInterval, ticks);
      assert RunThreaded(pollInterval, first, ticks) == [Send(notice)] + rest;
      StartedReportsNothing(notice, rest);
      LoopNeverRepeats(Threaded, p.store, pollInterval, ticks);
      assert p.store.Keys == Ids(NormalizeAll(Take(first.entries, ThreadedMonitor.PrimeLimit)));
    } else {
      assert RunThreaded(pollInterval, first, ticks) == [];
    }
  }

  /** The asyncio monitor sends its startup notice first, and only then. */
  lemma RunAsyncStartsOnce(pollInterval: int, startedAt: string, ticks: seq<Tick>)
    ensures RunAsync(pollInterval, startedAt, ticks)[0] == Send(AsyncMonitor.StartupNotice(pollInterval, startedAt))
    ensures OnlyListings(RunAsync(pollInterval, startedAt, ticks)[1..])
  {
    assert RunAsync(pollInterval, startedAt, ticks)[1..] == Loop(Async, map[], pollInterval, ticks);
    LoopSendsOnlyListings(Async, map[], pollInterval, ticks);
  }

  /** The asyncio monitor never reports an id twice over a whole run. */
  lemma RunAsyncNeverRepeats(pollInterval: int, startedAt: string, ticks: seq<Tick>)
    ensures NoRepeats(map[], Reported(RunAsync(pollInterval, startedAt, ticks)))
  {
    var notice := AsyncMonitor.StartupNotice(pollInterval, startedAt);
    var rest := Loop(Async, map[], pollInterval, ticks);
    StartedReportsNothing(notice, rest);
    LoopNeverRepeats(Async, map[], pollInterval, ticks);
  }

  /** With no priming scan, the asyncio monitor's first cycle on a parsed
      feed reports every distinct id of the feed, each once. */
  lemma AsyncFirstCycleReportsAll(es: seq<Entry>, now: string)
    ensures forall e :: e in es ==> ItemId(e.link) in IdsOf(AsyncMonitor.GetNewItems(map[], Feed(es), now).found)
    ensures NoRepeats(map[], AsyncMonitor.GetNewItems(map[], Feed(es), now).found)
  {
    var ls := NormalizeAll(es);
    var store: Store := map[];
    assert AsyncMonitor.GetNewItems(map[], Feed(es), now) == Detect(store, ls, Wall(now));
    DetectOk(store, ls, Wall(now));
    DetectFoundFresh(store, ls, Wall(now));
    DetectReportsNewIds(store, ls, Wall(now));
    forall e | e in es ensures ItemId(e.link) in IdsOf(Detect(store, ls, Wall(now)).found) {
      var j :| 0 <= j < |es| && es[j] == e;
      assert ls[j] in ls && ls[j].id == ItemId(e.link);
    }
  }

  /** A missing setting means nothing is ever sent, whichever monitor was
      chosen and whatever the feed does. */
  lemma MissingSettingSendsNothing(v: Variant, env: Config.Env, pollInterval: int, first: Snapshot, startedAt: string, ticks: seq<Tick>)
    requires exists x :: x in Config.Required && Config.Unset(env, x)
    ensures Main(v, env, pollInterval, first, startedAt, ticks) == []
  {
  }

  /** With every setting present, the asyncio monitor announces itself
      first. */
  lemma SettingsPresentAsyncStarts(env: Config.Env, pollInterval: int, first: Snapshot, startedAt: string, ticks: seq<Tick>)
    requires forall x :: x in Config.Required ==> !Config.Unset(env, x)
    ensures Main(Async, env, pollInterval, first, startedAt, ticks)[0]
              == Send(AsyncMonitor.StartupNotice(pollInterval, startedAt))
  {
  }
}
