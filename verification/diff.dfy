/**
 * The diff step shared by both monitors' `get_new_items`: walk the scanned
 * entries in feed order and record every entry whose id is not yet known.
 */
module Diff {
  import opened Wrappers
  import opened Listing
  import opened KnownStore

  /** The store after a scan, the records reported as new, and whether the
      scan ran to the end (`ok`) or stopped on an entry whose record could
      not be built. */
  datatype Detection = Detection(store: Store, found: seq<Item>, ok: bool)

  /** One scan. An entry whose id is already stored is skipped and its stored
      record left alone; otherwise its record is built, inserted and
      reported. A failure to build a record ends the scan: nothing is
      reported, but the records inserted before it stay in the store. */
  function Detect(store: Store, es: seq<Listing>, clock: Clock): (d: Detection)
    ensures Extends(store, d.store)
    ensures !d.ok ==> d.found == []

    decreases |es|
  {
    if es == [] then Detection(store, [], true)
    else
      var id := es[0].id;
      IdsCons(es[0], es[1..]);
      if id in store then Detect(store, es[1..], clock)
      else match MakeItem(es[0].entry, clock)
        case None => Detection(store, [], false)
        case Some(it) =>
          var rest := Detect(store[id := it], es[1..], clock);
          if rest.ok then Detection(rest.store, [it] + rest.found, true)
          else Detection(rest.store, [], false)
  }

  /** Reference definition: the entries of `es`, in order, whose id is
      neither in `known` nor the id of an earlier entry of `es`. */
  function Unseen(known: set<string>, es: seq<Listing>): seq<Listing>
    decreases |es|
  {
    if es == [] then []
    else
      var id := es[0].id;
      if id in known then Unseen(known, es[1..])
      else [es[0]] + Unseen(known + {id}, es[1..])
  }

  /** The unseen listings are listings of `es` whose ids are not in
      `known`, each id at most once. */
  lemma {:induction false} UnseenSound(known: set<string>, es: seq<Listing>)
    ensures forall i :: 0 <= i < |Unseen(known, es)| ==> Unseen(known, es)[i] in es
    ensures forall i :: 0 <= i < |Unseen(known, es)| ==> Unseen(known, es)[i].id !in known
    ensures forall i, j :: 0 <= i < j < |Unseen(known, es)| ==> Unseen(known, es)[i].id != Unseen(known, es)[j].id
    decreases |es|
  {
    if es != [] {
      var id := es[0].id;
      var u := Unseen(known, es);
      if id in known {
        assert u == Unseen(known, es[1..]);
        UnseenSound(known, es[1..]);
        assert forall i, j :: 0 <= i < j < |u| ==> u[i].id != u[j].id;
        assert forall l :: l in es[1..] ==> l in es;
      } else {
        var ut := Unseen(known + {id}, es[1..]);
        assert u == [es[0]] + ut;
        UnseenSound(known + {id}, es[1..]);
        assert forall l :: l in es[1..] ==> l in es;
        assert forall i :: 1 <= i < |u| ==> u[i] == ut[i - 1];
      }
    }
  }

  /** The unseen listings carry every id of the feed that is not known. */
  lemma {:induction false} UnseenIds(known: set<string>, es: seq<Listing>)
    ensures Ids(Unseen(known, es)) == Ids(es) - known
    decreases |es|
  {
    if es != [] {
      var id := es[0].id;
      IdsCons(es[0], es[1..]);
      assert es == [es[0]] + es[1..];
      if id in known {
        UnseenIds(known, es[1..]);
      } else {
        UnseenIds(known + {id}, es[1..]);
        IdsCons(es[0], Unseen(known + {id}, es[1..]));
      }
    }
  }

  /** The leading listings of `u` that yield a record under `clock`: a scan
      of `u` gets this far before it stops. */
  function Loadable(u: seq<Listing>, clock: Clock): (p: seq<Listing>)
    ensures |p| <= |u|
    ensures forall i :: 0 <= i < |p| ==> p[i] == u[i] && MakeItem(u[i].entry, clock).Some?
    ensures |p| < |u| ==> MakeItem(u[|p|].entry, clock).None?
  {
    if u == [] || MakeItem(u[0].entry, clock).None? then []
    else [u[0]] + Loadable(u[1..], clock)
  }

  /** A scan of `u` gets to the end exactly when every listing of `u`
      yields a record. */
  lemma LoadableAll(u: seq<Listing>, clock: Clock)
    ensures Loadable(u, clock) == u <==> forall i :: 0 <= i < |u| ==> MakeItem(u[i].entry, clock).Some?
  {
  }

  /** The scan completes exactly when every unseen listing yields a
      record. */
  lemma {:induction false} DetectOk(store: Store, es: seq<Listing>, clock: Clock)
    ensures Detect(store, es, clock).ok <==>
              forall i :: 0 <= i < |Unseen(store.Keys, es)| ==> MakeItem(Unseen(store.Keys, es)[i].entry, clock).Some?
    decreases |es|
  {
    if es != [] {
      var id := es[0].id;
      var d := Detect(store, es, clock);
      var u := Unseen(store.Keys, es);
      if id in store {
        assert d == Detect(store, es[1..], clock);
        assert u == Unseen(store.Keys, es[1..]);
        DetectOk(store, es[1..], clock);
      } else {
        var ut := Unseen(store.Keys + {id}, es[1..]);
        assert u == [es[0]] + ut;
        if MakeItem(es[0].entry, clock).None? {
          assert !d.ok;
          assert MakeItem(u[0].entry, clock).None?;
        } else {
          var it := MakeItem(es[0].entry, clock).value;
          var s' := store[id := it];
          assert s'.Keys == store.Keys + {id};
          assert d.ok == Detect(s', es[1..], clock).ok;
          DetectOk(s', es[1..], clock);
          if d.ok {
            forall i | 0 <= i < |u| ensures MakeItem(u[i].entry, clock).Some? {
              if i > 0 {
                assert u[i] == ut[i - 1];
              }
            }
          } else {
            var j :| 0 <= j < |ut| && MakeItem(ut[j].entry, clock).None?;
            assert u[j + 1] == ut[j];
          }
        }
      }
    }
  }

  /** A completed scan reports the records of the unseen listings, in feed
      order. */
  lemma {:induction false} DetectFound(store: Store, es: seq<Listing>, clock: Clock)
    requires Detect(store, es, clock).ok
    ensures |Detect(store, es, clock).found| == |Unseen(store.Keys, es)|
    ensures forall i :: 0 <= i < |Unseen(store.Keys, es)| ==>
              Some(Detect(store, es, clock).found[i]) == MakeItem(Unseen(store.Keys, es)[i].entry, clock)
    decreases |es|
  {
    if es != [] {
      var id := es[0].id;
      var d := Detect(store, es, clock);
      var u := Unseen(store.Keys, es);
      if id in store {
        assert d == Detect(store, es[1..], clock);
        assert u == Unseen(store.Keys, es[1..]);
        DetectFound(store, es[1..], clock);
      } else {
        var ut := Unseen(store.Keys + {id}, es[1..]);
        assert u == [es[0]] + ut;
        var it := MakeItem(es[0].entry, clock).value;
        var s' := store[id := it];
        assert s'.Keys == store.Keys + {id};
        var rest := Detect(s', es[1..], clock);
        assert d.found == [it] + rest.found;
        DetectFound(s', es[1..], clock);
        assert forall i :: 1 <= i < |u| ==> u[i] == ut[i - 1];
      }
    }
  }

  /** The scan agrees with the reference on what it reports: it succeeds
      exactly when every unseen listing yields a record, and then reports
      the records of the unseen listings, in feed order. */
  lemma DetectReportsUnseen(store: Store, es: seq<Listing>, clock: Clock)
    ensures Detect(store, es, clock).ok <==>
              forall i :: 0 <= i < |Unseen(store.Keys, es)| ==> MakeItem(Unseen(store.Keys, es)[i].entry, clock).Some?
    ensures Detect(store, es, clock).ok ==> |Detect(store, es, clock).found| == |Unseen(store.Keys, es)|
    ensures Detect(store, es, clock).ok ==>
              forall i :: 0 <= i < |Unseen(store.Keys, es)| ==>
                Some(Detect(store, es, clock).found[i]) == MakeItem(Unseen(store.Keys, es)[i].entry, clock)
  {
    DetectOk(store, es, clock);
    if Detect(store, es, clock).ok {
      DetectFound(store, es, clock);
    }
  }

  /** Whether or not the scan succeeds, the store gains exactly the ids of
      the unseen listings before the first one without a record. */
  lemma {:induction false} DetectStoreKeys(store: Store, es: seq<Listing>, clock: Clock)
    ensures Detect(store, es, clock).store.Keys == store.Keys + Ids(Loadable(Unseen(store.Keys, es), clock))
    decreases |es|
  {
    if es != [] {
      var id := es[0].id;
      var d := Detect(store, es, clock);
      var u := Unseen(store.Keys, es);
      if id in store {
        assert d == Detect(store, es[1..], clock);
        assert u == Unseen(store.Keys, es[1..]);
        DetectStoreKeys(store, es[1..], clock);
      } else {
        var ut := Unseen(store.Keys + {id}, es[1..]);
        assert u == [es[0]] + ut;
        if MakeItem(es[0].entry, clock).None? {
          assert d.store == store;
          assert Loadable(u, clock) == [];
          assert Ids([]) == {};
        } else {
          var it := MakeItem(es[0].entry, clock).value;
          var s' := store[id := it];
          assert s'.Keys == store.Keys + {id};
          assert d.store == Detect(s', es[1..], clock).store;
          DetectStoreKeys(s', es[1..], clock);
          assert u[1..] == ut;
          assert Loadable(u, clock) == [es[0]] + Loadable(ut, clock);
          IdsCons(es[0], Loadable(ut, clock));
          assert Ids(Loadable(u, clock)) == {id} + Ids(Loadable(ut, clock));
        }
      }
    }
  }

  /** Each id the scan adds is stored with the record of its first listing
      in the feed: later listings with the same id do not replace it. */
  lemma {:induction false} DetectStoreValues(store: Store, es: seq<Listing>, clock: Clock)
    ensures forall l :: l in Loadable(Unseen(store.Keys, es), clock) ==>
              l.id in Detect(store, es, clock).store && Detect(store, es, clock).store[l.id] == MakeItem(l.entry, clock).value
    decreases |es|
  {
    if es != [] {
      var id := es[0].id;
      var d := Detect(store, es, clock);
      var u := Unseen(store.Keys, es);
      if id in store {
        assert d == Detect(store, es[1..], clock);
        assert u == Unseen(store.Keys, es[1..]);
        DetectStoreValues(store, es[1..], clock);
      } else {
        var ut := Unseen(store.Keys + {id}, es[1..]);
        assert u == [es[0]] + ut;
        if MakeItem(es[0].entry, clock).None? {
          assert Loadable(u, clock) == [];
        } else {
          var it := MakeItem(es[0].entry, clock).value;
          var s' := store[id := it];
          assert s'.Keys == store.Keys + {id};
          var rest := Detect(s', es[1..], clock);
          assert d.store == rest.store;
          DetectStoreValues(s', es[1..], clock);
          assert u[1..] == ut;
          assert Loadable(u, clock) == [es[0]] + Loadable(ut, clock);
          // the first listing's record survives the rest of the scan
          assert Extends(s', rest.store);
          assert id in rest.store && rest.store[id] == it;
        }
      }
    }
  }

  /** A scan that completes leaves every id of the feed in the store. */
  lemma DetectCoversFeed(store: Store, es: seq<Listing>, clock: Clock)
    requires Detect(store, es, clock).ok
    ensures Detect(store, es, clock).store.Keys == store.Keys + Ids(es)
  {
    DetectReportsUnseen(store, es, clock);
    LoadableAll(Unseen(store.Keys, es), clock);
    DetectStoreKeys(store, es, clock);
    UnseenIds(store.Keys, es);
  }

  /** Idempotence: scanning the same listings again, with the store the
      first scan left, reports nothing and changes nothing, whether the
      first scan completed or stopped on a listing without a record. */
  lemma {:induction false} DetectTwice(store: Store, es: seq<Listing>, clock: Clock)
    ensures Detect(Detect(store, es, clock).store, es, clock).found == []
    ensures Detect(Detect(store, es, clock).store, es, clock).store == Detect(store, es, clock).store
    decreases |es|
  {
    if es != [] {
      var id := es[0].id;
      if id in store {
        DetectTwice(store, es[1..], clock);
      } else if MakeItem(es[0].entry, clock).Some? {
        var it := MakeItem(es[0].entry, clock).value;
        DetectTwice(store[id := it], es[1..], clock);
      }
    }
  }

  /** A scan over listings whose ids are all known already reports nothing,
      changes nothing and completes, whatever the clock. */
  lemma {:induction false} DetectNothingNew(store: Store, es: seq<Listing>, clock: Clock)
    requires forall i :: 0 <= i < |es| ==> es[i].id in store
    ensures Detect(store, es, clock) == Detection(store, [], true)
    decreases |es|
  {
    if es != [] {
      assert es[0].id in store;
      DetectNothingNew(store, es[1..], clock);
    }
  }

  // ---------------------------------------------------------------------
  // The reference by position

  /** Position `i` holds the first listing of `es` with its id, and that id
      is not in `known`. */
  ghost predicate FirstUnseenAt(known: set<string>, es: seq<Listing>, i: int)
    requires 0 <= i < |es|
  {
    es[i].id !in known && es[i].id !in Ids(es[..i])
  }

  /** The listings at the positions below `n` that satisfy FirstUnseenAt,
      in order of position. */
  ghost function UnseenBelow(known: set<string>, es: seq<Listing>, n: nat): seq<Listing>
    requires n <= |es|
  {
    if n == 0 then []
    else UnseenBelow(known, es, n - 1) + (if FirstUnseenAt(known, es, n - 1) then [es[n - 1]] else [])
  }

  /** One step of the reference scan, for a feed given as its first listing
      and the rest. */
  lemma UnseenCons(known: set<string>, x: Listing, rest: seq<Listing>)
    ensures x.id in known ==> Unseen(known, [x] + rest) == Unseen(known, rest)
    ensures x.id !in known ==> Unseen(known, [x] + rest) == [x] + Unseen(known + {x.id}, rest)
  {
    assert ([x] + rest)[0] == x;
    assert ([x] + rest)[1..] == rest;
  }

  /** The ids known after the first listing and the rest of the half are
      the ids known after the whole half. */
  lemma KnownAfterFirst(known: set<string>, x: Listing, r: seq<Listing>, k: set<string>)
    requires k == if x.id in known then known else known + {x.id}
    ensures k + Ids(r) == known + Ids([x] + r)
  {
    IdsCons(x, r);
  }

  lemma ConsAssoc(x: Listing, u: seq<Listing>, v: seq<Listing>)
    ensures [x] + (u + v) == ([x] + u) + v
  {
  }

  /** The step of `UnseenAppend` when the first listing's id is known: it
      is skipped in both scans. */
  lemma UnseenAppendSkip(known: set<string>, x: Listing, r: seq<Listing>, b: seq<Listing>)
    requires x.id in known
    requires Unseen(known, r + b) == Unseen(known, r) + Unseen(known + Ids(r), b)
    ensures Unseen(known, [x] + (r + b)) == Unseen(known, [x] + r) + Unseen(known + Ids([x] + r), b)
  {
    KnownAfterFirst(known, x, r, known);
    UnseenCons(known, x, r + b);
    UnseenCons(known, x, r);
  }

  /** The step of `UnseenAppend` when the first listing's id is new: it
      heads both scans, and its id is known for the rest. */
  lemma UnseenAppendTake(known: set<string>, x: Listing, r: seq<Listing>, b: seq<Listing>)
    requires x.id !in known
    requires Unseen(known + {x.id}, r + b) == Unseen(known + {x.id}, r) + Unseen(known + {x.id} + Ids(r), b)
    ensures Unseen(known, [x] + (r + b)) == Unseen(known, [x] + r) + Unseen(known + Ids([x] + r), b)
  {
    KnownAfterFirst(known, x, r, known + {x.id});
    UnseenCons(known, x, r + b);
    UnseenCons(known, x, r);
    ConsAssoc(x, Unseen(known + {x.id}, r), Unseen(known + {x.id} + Ids(r), b));
  }

  /** Scanning a concatenation is scanning its halves in turn, the second
      with the ids of the first counted as known. */
  lemma {:induction false} UnseenAppend(known: set<string>, a: seq<Listing>, b: seq<Listing>)
    ensures Unseen(known, a + b) == Unseen(known, a) + Unseen(known + Ids(a), b)
    decreases |a|
  {
    if a == [] {
      assert a + b == b;
      assert known + Ids(a) == known;
    } else {
      var x, r := a[0], a[1..];
      assert a == [x] + r;
      assert a + b == [x] + (r + b);
      if x.id in known {
        UnseenAppend(known, r, b);
        UnseenAppendSkip(known, x, r, b);
      } else {
        UnseenAppend(known + {x.id}, r, b);
        UnseenAppendTake(known, x, r, b);
      }
    }
  }

  /** The scan order reference agrees with the positional one: the unseen
      listings are exactly the first listings of their ids that are not
      known, in feed order. */
  lemma {:induction false} UnseenByPosition(known: set<string>, es: seq<Listing>, n: nat)
    requires n <= |es|
    ensures Unseen(known, es[..n]) == UnseenBelow(known, es, n)
  {
    if n == 0 {
      assert es[..0] == [];
    } else {
      UnseenByPosition(known, es, n - 1);
      var a := es[..n - 1];
      assert es[..n] == a + [es[n - 1]];
      UnseenAppend(known, a, [es[n - 1]]);
      var single := Unseen(known + Ids(a), [es[n - 1]]);
      assert [es[n - 1]][1..] == [];
      assert single == (if FirstUnseenAt(known, es, n - 1) then [es[n - 1]] else []);
    }
  }

  /** The ids of `items` (as derived from their links) were unknown in
      `before`, are known in `after`, and are pairwise distinct. */
  ghost predicate Fresh(before: Store, after: Store, items: seq<Item>)
  {
    && (forall i :: 0 <= i < |IdsOf(items)| ==> IdsOf(items)[i] !in before && IdsOf(items)[i] in after)
    && (forall i, j :: 0 <= i < j < |IdsOf(items)| ==> IdsOf(items)[i] != IdsOf(items)[j])
  }

  /** A scan reports only fresh ids: unknown before it, stored after it,
      each at most once. */
  ghost predicate ReportsFresh(before: Store, d: Detection)
  {
    Fresh(before, d.store, d.found)
  }

  /** For listings carrying their links' ids, a completed scan reports the
      ids of the unseen listings, in order. */
  lemma FoundIds(store: Store, ls: seq<Listing>, clock: Clock)
    requires Normalized(ls)
    requires Detect(store, ls, clock).ok
    ensures |IdsOf(Detect(store, ls, clock).found)| == |Unseen(store.Keys, ls)|
    ensures forall i :: 0 <= i < |Unseen(store.Keys, ls)| ==>
              IdsOf(Detect(store, ls, clock).found)[i] == Unseen(store.Keys, ls)[i].id
  {
    var d := Detect(store, ls, clock);
    var u := Unseen(store.Keys, ls);
    DetectReportsUnseen(store, ls, clock);
    UnseenSound(store.Keys, ls);
    forall i | 0 <= i < |u| ensures IdsOf(d.found)[i] == u[i].id {
      var j :| 0 <= j < |ls| && ls[j] == u[i];
    }
  }

  /** For listings carrying their links' ids, the scan reports only ids new
      before it, stored after it, each at most once. */
  lemma DetectFoundFresh(store: Store, ls: seq<Listing>, clock: Clock)
    requires Normalized(ls)
    ensures ReportsFresh(store, Detect(store, ls, clock))
  {
    var d := Detect(store, ls, clock);
    if d.ok {
      var u := Unseen(store.Keys, ls);
      var ids := IdsOf(d.found);
      FoundIds(store, ls, clock);
      UnseenSound(store.Keys, ls);
      FoundStored(store, ls, clock);
      forall i | 0 <= i < |ids| ensures ids[i] !in store && ids[i] in d.store {
        assert ids[i] == u[i].id;
      }
      forall i, j | 0 <= i < j < |ids| ensures ids[i] != ids[j] {
        assert ids[i] == u[i].id && ids[j] == u[j].id;
      }
    } else {
      assert d.found == [];
    }
  }

  /** A completed scan of listings carrying their links' ids reports every
      id of the feed that was not known before it. */
  lemma DetectReportsNewIds(store: Store, ls: seq<Listing>, clock: Clock)
    requires Normalized(ls)
    requires Detect(store, ls, clock).ok
    ensures forall l :: l in ls && l.id !in store ==> l.id in IdsOf(Detect(store, ls, clock).found)
  {
    var u := Unseen(store.Keys, ls);
    var ids := IdsOf(Detect(store, ls, clock).found);
    FoundIds(store, ls, clock);
    UnseenIds(store.Keys, ls);
    forall l | l in ls && l.id !in store ensures l.id in ids {
      assert l.id in Ids(ls);
      assert l.id in Ids(u);
      IdAtSomePosition(u, l.id);
      var m :| 0 <= m < |u| && u[m].id == l.id;
      assert ids[m] == l.id;
    }
  }

  /** A completed scan of listings carrying their links' ids leaves the
      store with exactly the old ids plus the ids of the reported items. */
  lemma DetectStoreGainsFound(store: Store, ls: seq<Listing>, clock: Clock)
    requires Normalized(ls)
    requires Detect(store, ls, clock).ok
    ensures Detect(store, ls, clock).store.Keys == store.Keys + set k | k in IdsOf(Detect(store, ls, clock).found)
  {
    var u := Unseen(store.Keys, ls);
    DetectReportsUnseen(store, ls, clock);
    LoadableAll(u, clock);
    DetectStoreKeys(store, ls, clock);
    FoundIds(store, ls, clock);
    SameIds(IdsOf(Detect(store, ls, clock).found), u);
  }

  lemma FoundStored(store: Store, ls: seq<Listing>, clock: Clock)
    requires Detect(store, ls, clock).ok
    ensures forall i :: 0 <= i < |Unseen(store.Keys, ls)| ==> Unseen(store.Keys, ls)[i].id in Detect(store, ls, clock).store
  {
    var u := Unseen(store.Keys, ls);
    DetectReportsUnseen(store, ls, clock);
    DetectStoreKeys(store, ls, clock);
    LoadableAll(u, clock);
    assert Loadable(u, clock) == u;
    assert forall i :: 0 <= i < |u| ==> u[i].id in Ids(u) by {
      forall i | 0 <= i < |u| ensures u[i].id in Ids(u) {
        assert u[i] in u;
      }
    }
  }
}
