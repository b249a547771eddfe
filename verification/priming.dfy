/**
 * The priming scan of the threaded monitor (`fetch_current_inventory`):
 * every scanned listing is written to the store, replacing what was there,
 * and collected into the current inventory.
 */
module Priming {
  import opened Wrappers
  import opened Listing
  import opened KnownStore

  /** The store after the scan, the inventory collected (in feed order),
      and whether the scan ran to the end. On a failure the inventory holds
      the records collected before it. */
  datatype Inventory = Inventory(store: Store, items: seq<Item>, ok: bool)

  /** Every listing's record is built from its own publish time and written
      under its id; a listing without a publish time ends the scan. */
  function Prime(store: Store, ls: seq<Listing>): (p: Inventory)
    ensures store.Keys <= p.store.Keys
    ensures |p.items| <= |ls|
    ensures forall i :: 0 <= i < |p.items| ==> Some(p.items[i]) == MakeItem(ls[i].entry, FeedTime)
    ensures p.ok <==> forall i :: 0 <= i < |ls| ==> ls[i].entry.published.Some?
    ensures p.ok ==> |p.items| == |ls|
    ensures !p.ok ==> |p.items| < |ls| && ls[|p.items|].entry.published.None?
    decreases |ls|
  {
    if ls == [] then Inventory(store, [], true)
    else match MakeItem(ls[0].entry, FeedTime)
      case None => Inventory(store, [], false)
      case Some(it) =>
        var r := Prime(store[ls[0].id := it], ls[1..]);
        Inventory(r.store, [it] + r.items, r.ok)
  }

  /** A scan that stops at a listing without a publish time leaves the
      store and the inventory exactly as a completed scan of the listings
      before that one would: every earlier write stays, nothing after it
      happens. */
  lemma {:induction false} PrimeStopsAtFailure(store: Store, ls: seq<Listing>)
    requires !Prime(store, ls).ok
    ensures Prime(store, ls[..|Prime(store, ls).items|]).ok
    ensures Prime(store, ls[..|Prime(store, ls).items|]).store == Prime(store, ls).store
    ensures Prime(store, ls[..|Prime(store, ls).items|]).items == Prime(store, ls).items
    decreases |ls|
  {
    var p := Prime(store, ls);
    match MakeItem(ls[0].entry, FeedTime)
    case None =>
      assert ls[..0] == [];
    case Some(it) =>
      var s' := store[ls[0].id := it];
      var r := Prime(s', ls[1..]);
      PrimeStopsAtFailure(s', ls[1..]);
      var pre := ls[..|p.items|];
      assert |p.items| == |r.items| + 1;
      assert pre[0] == ls[0];
      assert pre[1..] == ls[1..][..|r.items|];
  }

  /** A completed priming scan leaves exactly the old ids plus the scanned
      ones in the store. */
  lemma {:induction false} PrimeKeys(store: Store, ls: seq<Listing>)
    requires Prime(store, ls).ok
    ensures Prime(store, ls).store.Keys == store.Keys + Ids(ls)
    decreases |ls|
  {
    if ls != [] {
      var it := MakeItem(ls[0].entry, FeedTime).value;
      var s' := store[ls[0].id := it];
      assert s'.Keys == store.Keys + {ls[0].id};
      PrimeKeys(s', ls[1..]);
      assert Prime(store, ls).store == Prime(s', ls[1..]).store;
      IdsCons(ls[0], ls[1..]);
      assert ls == [ls[0]] + ls[1..];
    }
  }

  /** Ids the scan does not see keep their records. */
  lemma {:induction false} PrimeKeepsOthers(store: Store, ls: seq<Listing>)
    ensures forall k :: k in store && k !in Ids(ls) ==> Prime(store, ls).store[k] == store[k]
    decreases |ls|
  {
    if ls != [] {
      var p := Prime(store, ls);
      match MakeItem(ls[0].entry, FeedTime)
      case None =>
        assert p.store == store;
      case Some(it) =>
        var s' := store[ls[0].id := it];
        assert p.store == Prime(s', ls[1..]).store;
        PrimeKeepsOthers(s', ls[1..]);
        IdsCons(ls[0], ls[1..]);
        assert ls == [ls[0]] + ls[1..];
        forall k | k in store && k !in Ids(ls) ensures p.store[k] == store[k] {
          assert k != ls[0].id && k !in Ids(ls[1..]);
          assert k in s' && s'[k] == store[k];
        }
    }
  }

  /** Unlike the diff step, the priming scan overwrites: an id is left with
      the record of its LAST scanned listing. */
  lemma {:induction false} PrimeLastWins(store: Store, ls: seq<Listing>)
    requires Prime(store, ls).ok
    ensures forall i :: 0 <= i < |ls| && ls[i].id !in Ids(ls[i + 1..]) ==>
              ls[i].id in Prime(store, ls).store && Prime(store, ls).store[ls[i].id] == Prime(store, ls).items[i]
    decreases |ls|
  {
    if ls != [] {
      var p := Prime(store, ls);
      var it := MakeItem(ls[0].entry, FeedTime).value;
      var s' := store[ls[0].id := it];
      PrimeLastWins(s', ls[1..]);
      PrimeKeepsOthers(s', ls[1..]);
      PrimeKeys(s', ls[1..]);
      var r := Prime(s', ls[1..]);
      assert p.store == r.store && p.items == [it] + r.items;
      forall i | 0 <= i < |ls| && ls[i].id !in Ids(ls[i + 1..])
        ensures ls[i].id in p.store && p.store[ls[i].id] == p.items[i]
      {
        if i > 0 {
          assert ls[1..][i - 1] == ls[i];
          assert ls[1..][i - 1 + 1..] == ls[i + 1..];
        } else {
          assert ls[1..] == ls[0 + 1..];
        }
      }
    }
  }
}
