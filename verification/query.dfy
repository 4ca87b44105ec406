/** The listing query of `GET /api/listings`: optional query-string
    parameters become a filter over the listing store, and the matching
    listings are returned favourites first, newest first within each group. */
module Query {
  import opened Wrappers
  import opened Listings

  /** A numeric query parameter: its raw text and the number `Number(text)`
      yields for it (parsing is not modelled). */
  datatype NumParam = NumParam(text: string, number: real)

  /** The query string; `None` is a parameter that is absent. */
  datatype Params = Params(
    showHidden: Option<string>,
    favorites: Option<string>,
    minPrice: Option<NumParam>,
    maxPrice: Option<NumParam>,
    minRooms: Option<NumParam>,
    maxRooms: Option<NumParam>)

  /** A numeric bound is active when its parameter is present and non-empty. */
  function Bound(p: Option<NumParam>): Option<real>
  {
    if p.Some? && p.value.text != "" then Some(p.value.number) else None
  }

  /** A `{ gte, lte }` range filter. */
  datatype Range = Range(gte: Option<real>, lte: Option<real>)

  /** The `where` object: an absent key places no constraint. */
  datatype Where = Where(isHidden: Option<bool>, isFavorite: Option<bool>, price: Option<Range>, rooms: Option<Range>)

  /** `{ ...r, gte: v }`: spreading an absent range yields the empty object. */
  function WithGte(r: Option<Range>, v: real): Option<Range>
  {
    Some((if r.Some? then r.value else Range(None, None)).(gte := Some(v)))
  }

  /** `{ ...r, lte: v }`. */
  function WithLte(r: Option<Range>, v: real): Option<Range>
  {
    Some((if r.Some? then r.value else Range(None, None)).(lte := Some(v)))
  }

  predicate InRange(v: real, r: Option<Range>)
  {
    r.None? || ((r.value.gte.Some? ==> r.value.gte.value <= v) && (r.value.lte.Some? ==> v <= r.value.lte.value))
  }

  /** The store's reading of a `where` object for one row. */
  predicate Matches(l: Listing, w: Where)
  {
    && (w.isHidden.Some? ==> l.isHidden == w.isHidden.value)
    && (w.isFavorite.Some? ==> l.isFavorite == w.isFavorite.value)
    && InRange(l.price as real, w.price)
    && InRange(l.physical.rooms, w.rooms)
  }

  /** What the endpoint promises of a returned listing, read directly off the
      parameters: hidden listings only when `showHidden` is exactly "true",
      only favourites when `favorites` is exactly "true", and every active
      price and rooms bound respected. */
  predicate Admissible(l: Listing, p: Params)
  {
    && (p.showHidden != Some("true") ==> !l.isHidden)
    && (p.favorites == Some("true") ==> l.isFavorite)
    && (p.minPrice.Some? && p.minPrice.value.text != "" ==> p.minPrice.value.number <= l.price as real)
    && (p.maxPrice.Some? && p.maxPrice.value.text != "" ==> l.price as real <= p.maxPrice.value.number)
    && (p.minRooms.Some? && p.minRooms.value.text != "" ==> p.minRooms.value.number <= l.physical.rooms)
    && (p.maxRooms.Some? && p.maxRooms.value.text != "" ==> l.physical.rooms <= p.maxRooms.value.number)
  }

  /** The `where` object built from the parameters, one step per source
      statement. Its reading is exactly `Admissible`; a second bound on the
      same column is merged with the first rather than replacing it. */
  function BuildWhere(p: Params): (w: Where)
    ensures forall l :: Matches(l, w) <==> Admissible(l, p)
    ensures Bound(p.minPrice).Some? && Bound(p.maxPrice).Some? ==>
              w.price == Some(Range(Bound(p.minPrice), Bound(p.maxPrice)))
    ensures Bound(p.minRooms).Some? && Bound(p.maxRooms).Some? ==>
              w.rooms == Some(Range(Bound(p.minRooms), Bound(p.maxRooms)))
    ensures Bound(p.minPrice).None? && Bound(p.maxPrice).None? ==> w.price.None?
    ensures Bound(p.minRooms).None? && Bound(p.maxRooms).None? ==> w.rooms.None?
  {
    var showHidden := p.showHidden == Some("true");
    var favoritesOnly := p.favorites == Some("true");
    var minPrice, maxPrice := Bound(p.minPrice), Bound(p.maxPrice);
    var minRooms, maxRooms := Bound(p.minRooms), Bound(p.maxRooms);
    var w0 := Where(None, None, None, None);
    var w1 := if !showHidden then w0.(isHidden := Some(false)) else w0;
    var w2 := if favoritesOnly then w1.(isFavorite := Some(true)) else w1;
    var w3 := if minPrice.Some? then w2.(price := WithGte(w2.price, minPrice.value)) else w2;
    var w4 := if maxPrice.Some? then w3.(price := WithLte(w3.price, maxPrice.value)) else w3;
    var w5 := if minRooms.Some? then w4.(rooms := WithGte(w4.rooms, minRooms.value)) else w4;
    if maxRooms.Some? then w5.(rooms := WithLte(w5.rooms, maxRooms.value)) else w5
  }

  // ---------------------------------------------------------------------------
  // Ordering
  // ---------------------------------------------------------------------------

  /** `orderBy: [{ isFavorite: 'desc' }, { firstSeenAt: 'desc' }]`: `a` may
      come before `b`. */
  predicate Precedes(a: Listing, b: Listing)
  {
    (a.isFavorite && !b.isFavorite) || (a.isFavorite == b.isFavorite && a.firstSeenAt >= b.firstSeenAt)
  }

  predicate Ordered(s: seq<Listing>)
  {
    forall i, j :: 0 <= i < j < |s| ==> Precedes(s[i], s[j])
  }

  /** Inserts `l` before the first element it may precede. */
  function Insert(s: seq<Listing>, l: Listing): (r: seq<Listing>)
    ensures multiset(r) == multiset(s) + multiset{l}
  {
    if s == [] then [l]
    else if Precedes(l, s[0]) then [l] + s
    else
      assert s == [s[0]] + s[1..];
      [s[0]] + Insert(s[1..], l)
  }

  /** A listing that precedes every element of an ordered sequence can head it. */
  lemma PrependOrdered(x: Listing, t: seq<Listing>)
    requires Ordered(t)
    requires forall k :: 0 <= k < |t| ==> Precedes(x, t[k])
    ensures Ordered([x] + t)
  {
    var r := [x] + t;
    forall i, j | 0 <= i < j < |r| ensures Precedes(r[i], r[j]) {
      if i == 0 {
        assert r[j] == t[j - 1];
      } else {
        assert r[i] == t[i - 1] && r[j] == t[j - 1];
      }
    }
  }

  /** Inserting keeps an ordered sequence ordered. */
  lemma {:induction false} InsertOrdered(s: seq<Listing>, l: Listing)
    requires Ordered(s)
    ensures Ordered(Insert(s, l))
  {
    if s == [] {
    } else if Precedes(l, s[0]) {
      forall k | 0 <= k < |s| ensures Precedes(l, s[k]) {
        if k > 0 {
          assert Precedes(s[0], s[k]);
        }
      }
      PrependOrdered(l, s);
    } else {
      var tail := Insert(s[1..], l);
      InsertOrdered(s[1..], l);
      forall k | 0 <= k < |tail| ensures Precedes(s[0], tail[k]) {
        var x := tail[k];
        assert x in multiset(tail);
        if x != l {
          var j :| 0 <= j < |s[1..]| && s[1..][j] == x;
          assert s[j + 1] == x;
        }
      }
      PrependOrdered(s[0], tail);
    }
  }

  // ---------------------------------------------------------------------------
  // The query
  // ---------------------------------------------------------------------------

  /** The keys whose stored listing matches `w`. */
  function Matching(store: Store, w: Where): set<string>
  {
    set t | t in store && Matches(store[t], w)
  }

  /** The matching keys outside `todo`: those a scan has already visited. */
  function Visited(store: Store, w: Where, todo: set<string>): set<string>
  {
    set t | t in store && t !in todo && Matches(store[t], w)
  }

  /** Once nothing is left to visit, the visited matches are all matches. */
  lemma VisitedAll(store: Store, w: Where)
    ensures Visited(store, w, {}) == Matching(store, w)
  {
  }

  /** `rows` is the ordered result of `findMany` over the keys not in `todo`. */
  predicate Collected(store: Store, w: Where, rows: seq<Listing>, todo: set<string>)
  {
    && Ordered(rows)
    && (forall l :: l in rows ==> l in store.Values && Matches(l, w))
    && (forall t :: t in store && t !in todo && Matches(store[t], w) ==> store[t] in rows)
    && |rows| == |Visited(store, w, todo)|
  }

  /** Visiting one more key keeps the collected rows right. */
  lemma CollectStep(store: Store, w: Where, rows: seq<Listing>, todo: set<string>, t: string)
    requires t in store && t in todo && Collected(store, w, rows, todo)
    ensures Matches(store[t], w) ==> Collected(store, w, Insert(rows, store[t]), todo - {t})
    ensures !Matches(store[t], w) ==> Collected(store, w, rows, todo - {t})
  {
    var l := store[t];
    if Matches(l, w) {
      InsertOrdered(rows, l);
      var next := Insert(rows, l);
      InsertMembers(rows, l);
      assert |next| == |multiset(next)| == |multiset(rows)| + 1 == |rows| + 1;
      assert t !in Visited(store, w, todo);
      assert Visited(store, w, todo - {t}) == Visited(store, w, todo) + {t};
    } else {
      assert Visited(store, w, todo - {t}) == Visited(store, w, todo);
    }
  }

  /** `findMany({ where, orderBy })` over the store: one row per matching key,
      in the requested order. Rows that tie on both sort keys may come in any
      order; this model fixes one. */
  method FindMany(store: Store, w: Where) returns (rows: seq<Listing>)
    ensures Ordered(rows)
    ensures forall l :: l in rows ==> l in store.Values && Matches(l, w)
    ensures forall t :: t in store && Matches(store[t], w) ==> store[t] in rows
    ensures |rows| == |Matching(store, w)|
  {
    rows := [];
    var todo := store.Keys;
    while todo != {}
      invariant todo <= store.Keys
      invariant Collected(store, w, rows, todo)
      decreases todo
    {
      var t :| t in todo;
      CollectStep(store, w, rows, todo, t);
      if Matches(store[t], w) {
        rows := Insert(rows, store[t]);
      }
      todo := todo - {t};
    }
    VisitedAll(store, w);
  }

  /** The members of `Insert(s, l)` are those of `s` and `l`. */
  lemma InsertMembers(s: seq<Listing>, l: Listing)
    ensures forall x :: x in Insert(s, l) <==> x in s || x == l
  {
    var r := Insert(s, l);
    forall x ensures x in r <==> x in s || x == l {
      assert x in r <==> x in multiset(r);
      assert x in s <==> x in multiset(s);
    }
  }

  /** `GET /api/listings`: every returned listing is a stored listing the
      parameters admit (sound), every stored listing they admit is returned
      (complete), one row per matching key, favourites first and newest first
      within each group. */
  method Get(store: Store, p: Params) returns (rows: seq<Listing>)
    ensures forall l :: l in rows ==> l in store.Values && Admissible(l, p)
    ensures forall t :: t in store && Admissible(store[t], p) ==> store[t] in rows
    ensures |rows| == |set t | t in store && Admissible(store[t], p)|
    ensures forall i, j :: 0 <= i < j < |rows| && rows[j].isFavorite ==> rows[i].isFavorite
    ensures forall i, j :: 0 <= i < j < |rows| && rows[i].isFavorite == rows[j].isFavorite ==>
              rows[i].firstSeenAt >= rows[j].firstSeenAt
  {
    var w := BuildWhere(p);
    rows := FindMany(store, w);
    assert Matching(store, w) == set t | t in store && Admissible(store[t], p);
  }
}
