/**
 * Listings as they arrive from the seller's RSS feed, the item records the
 * monitors keep, and the item id derived from a listing's link.
 */
module Listing {
  import opened Wrappers

  /** One feed entry: a link and a title are always there; the price
      (`ev_price`) and the publish time (`published_parsed`) may be absent.
      Publish times are kept as the text the monitor would print. */
  datatype Entry = Entry(link: string, title: string, price: Option<string>, published: Option<string>)

  /** The record stored per known id and shown in messages. */
  datatype Item = Item(title: string, price: string, link: string, time: string)

  /** The result of one `feedparser.parse` call: the entries in feed order
      (newest first), or an exception raised by the call. A feed that could
      not be downloaded does not raise; it arrives as an empty entry list. */
  datatype Snapshot = Feed(entries: seq<Entry>) | ParseError

  /** Where an item's time comes from: the entry's own publish time
      (threaded monitor) or the wall clock at detection (async monitor). */
  datatype Clock = FeedTime | Wall(now: string)

  /** Shown in place of a missing price. */
  const MissingPrice: string := "N/A"

  /** The position just after the last '/' among the first `n` characters
      of `s`, or 0 when there is none: where `s[:n].split('/')[-1]`
      begins. */
  function SegmentStart(s: string, n: nat): (k: nat)
    requires n <= |s|
    ensures k <= n
    ensures forall i :: k <= i < n ==> s[i] != '/'
    ensures k == 0 || s[k - 1] == '/'
  {
    if n == 0 then 0
    else if s[n - 1] == '/' then n
    else SegmentStart(s, n - 1)
  }

  /** The position of the first '?' of `s` at or after `from`, or |s| when
      there is none: where `s[from:].split('?')[0]` ends. */
  function QueryStart(s: string, from: nat): (k: nat)
    requires from <= |s|
    ensures from <= k <= |s|
    ensures forall i :: from <= i < k ==> s[i] != '?'
    ensures k == |s| || s[k] == '?'
    decreases |s| - from
  {
    if from == |s| || s[from] == '?' then from
    else QueryStart(s, from + 1)
  }

  /** The item id of a link, `link.split('/')[-1].split('?')[0]`: its last
      '/'-segment, cut at the first '?'. Total: every link has an id,
      possibly empty. */
  function ItemId(link: string): (id: string)
    ensures '/' !in id && '?' !in id
    ensures |id| <= |link|
  {
    var start := SegmentStart(link, |link|);
    link[start..QueryStart(link, start)]
  }

  /** A feed entry together with the id derived from its link: what the
      diff step and the store work with. */
  datatype Listing = Listing(id: string, entry: Entry)

  function Normalize(e: Entry): (l: Listing)
    ensures l.entry == e && l.id == ItemId(e.link)
  {
    Listing(ItemId(e.link), e)
  }

  /** Every entry of `es`, in order, with its id. */
  function NormalizeAll(es: seq<Entry>): (ls: seq<Listing>)
    ensures |ls| == |es|
    ensures forall i :: 0 <= i < |es| ==> ls[i] == Normalize(es[i])
  {
    if es == [] then [] else [Normalize(es[0])] + NormalizeAll(es[1..])
  }

  /** Every listing of `ls` carries the id of its own link. */
  ghost predicate Normalized(ls: seq<Listing>)
  {
    forall i :: 0 <= i < |ls| ==> ls[i].id == ItemId(ls[i].entry.link)
  }

  /** The id of every listing of `ls`. */
  function Ids(ls: seq<Listing>): set<string>
  {
    set l | l in ls :: l.id
  }

  /** The ids of `its`, in order, as derived from their links. */
  function IdsOf(its: seq<Item>): (ids: seq<string>)
    ensures |ids| == |its|
    ensures forall i :: 0 <= i < |its| ==> ids[i] == ItemId(its[i].link)
  {
    if its == [] then [] else [ItemId(its[0].link)] + IdsOf(its[1..])
  }

  /** The price shown for an entry: its `ev_price`, or "N/A" when absent. */
  function PriceText(price: Option<string>): string
  {
    price.GetOr(MissingPrice)
  }

  /** The record built for an entry, or None when the entry's time cannot be
      produced (the publish time is read and is missing). */
  function MakeItem(e: Entry, clock: Clock): (r: Option<Item>)
    ensures r.None? <==> clock.FeedTime? && e.published.None?
    ensures r.Some? ==> r.value.link == e.link && r.value.title == e.title
    ensures r.Some? && e.price.None? ==> r.value.price == MissingPrice
    ensures r.Some? && e.price.Some? ==> r.value.price == e.price.value
    ensures r.Some? && clock.Wall? ==> r.value.time == clock.now
    ensures r.Some? && clock.FeedTime? ==> r.value.time == e.published.value
  {
    match clock
    case Wall(now) => Some(Item(e.title, PriceText(e.price), e.link, now))
    case FeedTime =>
      if e.published.None? then None
      else Some(Item(e.title, PriceText(e.price), e.link, e.published.value))
  }

  // ---------------------------------------------------------------------
  // Properties of the id derivation

  /** Only one position follows the last '/' before `n`. */
  lemma SegmentStartUnique(s: string, n: nat, k: nat)
    requires n <= |s| && k <= n
    requires forall i :: k <= i < n ==> s[i] != '/'
    requires k == 0 || s[k - 1] == '/'
    ensures k == SegmentStart(s, n)
  {
    var k0 := SegmentStart(s, n);
    assert 0 < k0 ==> s[k0 - 1] == '/';
    assert 0 < k0 ==> k0 - 1 < k;
    assert 0 < k ==> k - 1 < k0;
  }

  /** Only one position is the first '?' from `from` on. */
  lemma QueryStartUnique(s: string, from: nat, k: nat)
    requires from <= k <= |s|
    requires forall i :: from <= i < k ==> s[i] != '?'
    requires k == |s| || s[k] == '?'
    ensures k == QueryStart(s, from)
  {
    var k0 := QueryStart(s, from);
    assert k0 < |s| ==> s[k0] == '?';
    assert k0 < |s| ==> k <= k0;
    assert k < |s| ==> k0 <= k;
  }

  /** The id described by position: the text of `link` from just after its
      last '/' (or from the start) up to the first '?' after that (or to the
      end). */
  lemma {:induction false} ItemIdByPosition(link: string, a: nat, b: nat)
    requires a <= b <= |link|
    requires a == 0 || link[a - 1] == '/'
    requires forall i :: a <= i < |link| ==> link[i] != '/'
    requires forall i :: a <= i < b ==> link[i] != '?'
    requires b == |link| || link[b] == '?'
    ensures ItemId(link) == link[a..b]
  {
    SegmentStartUnique(link, |link|, a);
    QueryStartUnique(link, a, b);
  }

  /** Links that differ only in a query string without '/' have the same id. */
  lemma {:induction false} QueryIgnored(base: string, query: string)
    requires '/' !in query
    ensures ItemId(base + "?" + query) == ItemId(base)
  {
    var link := base + "?" + query;
    var a := SegmentStart(base, |base|);
    var b := QueryStart(base, a);
    assert forall i :: |base| < i < |link| ==> link[i] == query[i - |base| - 1];
    assert link[|base|] == '?';
    assert forall i :: 0 <= i < |base| ==> link[i] == base[i];
    ItemIdByPosition(link, a, b);
    assert link[a..b] == base[a..b];
  }

  /** Corollary: two links that differ only in their ('/'-free) query strings
      name the same item. */
  lemma SameListingAcrossQueries(base: string, q1: string, q2: string)
    requires '/' !in q1 && '/' !in q2
    ensures ItemId(base + "?" + q1) == ItemId(base + "?" + q2)
  {
    QueryIgnored(base, q1);
    QueryIgnored(base, q2);
  }

  /** The id of an id is itself: ids are fixed points of the derivation. */
  lemma {:induction false} ItemIdIdempotent(link: string)
    ensures ItemId(ItemId(link)) == ItemId(link)
  {
    var id := ItemId(link);
    ItemIdByPosition(id, 0, |id|);
    assert id[0..|id|] == id;
  }

  /** The split on '/' is done before the cut at '?', so a '/' inside the
      query string moves the id into the query. */
  lemma SlashInQueryMovesId()
    ensures ItemId("itm/42?r=a/b") == "b"
  {
    ItemIdByPosition("itm/42?r=a/b", 11, 12);
  }

  // ---------------------------------------------------------------------
  // Facts about Ids

  lemma IdsConcat(a: seq<Listing>, b: seq<Listing>)
    ensures Ids(a + b) == Ids(a) + Ids(b)
  {
    forall x | x in Ids(a + b) ensures x in Ids(a) + Ids(b) {
      var l :| l in a + b && l.id == x;
    }
  }

  lemma IdsCons(l: Listing, rest: seq<Listing>)
    ensures Ids([l] + rest) == {l.id} + Ids(rest)
  {
    IdsConcat([l], rest);
    assert Ids([l]) == {l.id};
  }

  /** An id of `ls` is the id of one of its positions. */
  lemma IdAtSomePosition(ls: seq<Listing>, id: string)
    requires id in Ids(ls)
    ensures exists m :: 0 <= m < |ls| && ls[m].id == id
  {
    var x :| x in ls && x.id == id;
    var m :| 0 <= m < |ls| && ls[m] == x;
  }

  /** Position by position the same ids: the same set of ids. */
  lemma SameIds(ids: seq<string>, ls: seq<Listing>)
    requires |ids| == |ls| && forall i :: 0 <= i < |ls| ==> ids[i] == ls[i].id
    ensures (set k | k in ids) == Ids(ls)
  {
    forall k | k in Ids(ls) ensures k in ids {
      IdAtSomePosition(ls, k);
      var m :| 0 <= m < |ls| && ls[m].id == k;
      assert ids[m] == k;
    }
    forall k | k in ids ensures k in Ids(ls) {
      var m :| 0 <= m < |ids| && ids[m] == k;
      assert ls[m] in ls;
    }
  }
}
