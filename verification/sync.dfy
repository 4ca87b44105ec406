/** The listing sync routine: upsert every feed marker into the listing store,
    then append one run-log row, SUCCESS with the marker count or FAILURE
    with the error message, rethrowing the error in the latter case.

    The storage layer is an in-memory map with an atomic create-else-update
    per key. Its failures are an oracle (`Faults`); the clock is the single
    instant `now` of the run. */
module Sync {
  import opened Wrappers
  import opened Feed
  import opened Listings

  // ---------------------------------------------------------------------------
  // Upsert of one marker
  // ---------------------------------------------------------------------------

  /** The update branch of the upsert: only the price and the last-seen time
      are written. */
  function Refresh(l: Listing, price: int, now: Time): Listing
  {
    l.(price := price, lastSeenAt := now)
  }

  /** `after` agrees with `before` on every field the update branch does not
      write: identity, location, physical attributes, media, raw payload,
      first-seen time and the user's annotations. */
  predicate KeepsCreationFields(before: Listing, after: Listing)
  {
    && after.id == before.id
    && after.yad2Id == before.yad2Id
    && after.location == before.location
    && after.physical == before.physical
    && after.media == before.media
    && after.rawData == before.rawData
    && after.firstSeenAt == before.firstSeenAt
    && after.isFavorite == before.isFavorite
    && after.isHidden == before.isHidden
  }

  /** One `upsert` keyed by the marker's token. Both the update and the create
      objects are built before the call, so a marker that cannot be mapped
      fails even when its listing already exists. */
  function Upsert(store: Store, m: Marker, now: Time): (r: Result<Store, Error>)
    ensures r.Success? <==> Mappable(m)
    ensures r.Failure? ==> CreateFields(m, now) == Failure(r.error)
    ensures r.Success? ==> r.value.Keys == store.Keys + {m.token}
    ensures r.Success? ==> forall k :: k in store && k != m.token ==> r.value[k] == store[k]
    // update minimality
    ensures r.Success? && m.token in store ==>
              && KeepsCreationFields(store[m.token], r.value[m.token])
              && r.value[m.token].price == m.price
              && r.value[m.token].lastSeenAt == now
    // creation writes every field from the marker
    ensures r.Success? && m.token !in store ==>
              && r.value[m.token] == CreateFields(m, now).value
              && r.value[m.token].id == m.token
              && r.value[m.token].yad2Id == m.orderId
              && r.value[m.token].price == m.price
              && r.value[m.token].firstSeenAt == now
              && r.value[m.token].lastSeenAt == now
  {
    match CreateFields(m, now)
    case Failure(e) => Failure(e)
    case Success(created) =>
      if m.token in store then Success(store[m.token := Refresh(store[m.token], m.price, now)])
      else Success(store[m.token := created])
  }

  /** Upserting the same marker twice at the same instant is the same as
      upserting it once. */
  lemma UpsertIdempotent(store: Store, m: Marker, now: Time)
    requires Mappable(m)
    ensures Upsert(Upsert(store, m, now).value, m, now) == Upsert(store, m, now)
  {
    var s1 := Upsert(store, m, now).value;
    var l := s1[m.token];
    assert Refresh(l, m.price, now) == l;
    assert s1[m.token := l] == s1;
  }

  // ---------------------------------------------------------------------------
  // The per-marker loop
  // ---------------------------------------------------------------------------

  /** Storage fault oracle: the write of the marker at `index` fails. */
  datatype WriteFault = WriteFault(index: nat, error: Error)

  /** How the marker loop ended: every marker was upserted, or the marker at
      `at` failed with `error` and the loop stopped there. */
  datatype Reconciled =
    | Completed(store: Store)
    | Aborted(store: Store, at: nat, error: Error)

  predicate AllMappable(ms: seq<Marker>)
  {
    forall m :: m in ms ==> Mappable(m)
  }

  /** The fault oracle hits one of the `count` writes starting at `base`. */
  predicate FaultWithin(fault: Option<WriteFault>, base: nat, count: nat)
  {
    fault.Some? && base <= fault.value.index < base + count
  }

  /** The sequential `for ... of` loop over `ms`, whose first element has
      index `base` in the feed. There is no transaction: writes made before a
      failure stay. */
  function Reconcile(store: Store, ms: seq<Marker>, now: Time, fault: Option<WriteFault>, base: nat): (r: Reconciled)
    decreases |ms|
    ensures r.Aborted? ==> base <= r.at < base + |ms|
    ensures store.Keys <= r.store.Keys
  {
    if ms == [] then Completed(store)
    else
      match Upsert(store, ms[0], now)
      case Failure(e) => Aborted(store, base, e)
      case Success(next) =>
        if fault.Some? && fault.value.index == base then Aborted(store, base, fault.value.error)
        else
          Reconcile(next, ms[1..], now, fault, base + 1)
  }

  /** One iteration of the loop: the head marker either stops it or is
      written before the loop goes on with the rest. */
  lemma ReconcileHead(store: Store, ms: seq<Marker>, now: Time, fault: Option<WriteFault>, base: nat)
    requires ms != []
    ensures var u, r := Upsert(store, ms[0], now), Reconcile(store, ms, now, fault, base);
            && (u.Failure? ==> r == Aborted(store, base, u.error))
            && (u.Success? && fault.Some? && fault.value.index == base ==> r == Aborted(store, base, fault.value.error))
            && (u.Success? && !(fault.Some? && fault.value.index == base) ==>
                  r == Reconcile(u.value, ms[1..], now, fault, base + 1))
  {
  }

  /** The loop completes exactly when every marker maps and no write of the
      markers' range faults. */
  lemma {:induction false} ReconcileCompletes(store: Store, ms: seq<Marker>, now: Time, fault: Option<WriteFault>, base: nat)
    decreases |ms|
    ensures Reconcile(store, ms, now, fault, base).Completed? <==>
              AllMappable(ms) && !FaultWithin(fault, base, |ms|)
  {
    if ms != [] {
      ReconcileHead(store, ms, now, fault, base);
      assert forall m :: m in ms ==> m == ms[0] || m in ms[1..];
      if Upsert(store, ms[0], now).Success? {
        ReconcileCompletes(Upsert(store, ms[0], now).value, ms[1..], now, fault, base + 1);
      }
    }
  }

  // ---------------------------------------------------------------------------
  // Reference definition of the store a marker sequence leads to
  // ---------------------------------------------------------------------------

  function Tokens(ms: seq<Marker>): set<string>
  {
    set m | m in ms :: m.token
  }

  lemma TokensCons(ms: seq<Marker>)
    requires ms != []
    ensures Tokens(ms) == {ms[0].token} + Tokens(ms[1..])
  {
    assert forall m :: m in ms ==> m == ms[0] || m in ms[1..];
  }

  /** The first marker of `ms` carrying token `t`: the one that creates the
      listing when `t` is new. */
  function FirstWith(ms: seq<Marker>, t: string): (m: Marker)
    requires t in Tokens(ms)
    ensures m in ms && m.token == t
  {
    if ms[0].token == t then ms[0]
    else
      TokensCons(ms);
      FirstWith(ms[1..], t)
  }

  /** `FirstWith` is the earliest marker carrying the token. */
  lemma {:induction false} FirstWithIsFirstOccurrence(ms: seq<Marker>, t: string, i: nat)
    requires i < |ms| && ms[i].token == t
    requires forall j :: 0 <= j < i ==> ms[j].token != t
    ensures t in Tokens(ms) && FirstWith(ms, t) == ms[i]
  {
    TokensCons(ms);
    if i > 0 {
      assert ms[1..][i - 1] == ms[i];
      FirstWithIsFirstOccurrence(ms[1..], t, i - 1);
    }
  }

  /** The price the listing with token `t` ends with: every later occurrence
      of `t` overwrites it. */
  function LatestPrice(ms: seq<Marker>, t: string): int
    requires t in Tokens(ms)
  {
    TokensCons(ms);
    if t in Tokens(ms[1..]) then LatestPrice(ms[1..], t) else ms[0].price
  }

  /** `LatestPrice` is the price of the last marker carrying the token. */
  lemma {:induction false} LatestPriceIsLastOccurrence(ms: seq<Marker>, t: string, i: nat)
    requires i < |ms| && ms[i].token == t
    requires forall j :: i < j < |ms| ==> ms[j].token != t
    ensures t in Tokens(ms) && LatestPrice(ms, t) == ms[i].price
  {
    TokensCons(ms);
    if i == 0 {
      assert t !in Tokens(ms[1..]) by {
        forall m | m in ms[1..] ensures m.token != t {
          var j :| 0 <= j < |ms[1..]| && ms[1..][j] == m;
          assert ms[j + 1] == m;
        }
      }
    } else {
      LatestPriceIsLastOccurrence(ms[1..], t, i - 1);
    }
  }

  /** The listing a successful run over `ms` leaves under key `t`: a key not
      in the feed is untouched; an existing key is refreshed with its latest
      price; a new key is created from its first marker and then carries its
      latest price. */
  function ConvergedAt(store: Store, ms: seq<Marker>, now: Time, t: string): Listing
    requires AllMappable(ms) && t in store.Keys + Tokens(ms)
  {
    if t !in Tokens(ms) then store[t]
    else if t in store then Refresh(store[t], LatestPrice(ms, t), now)
    else Refresh(CreateFields(FirstWith(ms, t), now).value, LatestPrice(ms, t), now)
  }

  /** The store a successful run over `ms` must leave. */
  function Converged(store: Store, ms: seq<Marker>, now: Time): Store
    requires AllMappable(ms)
  {
    map t | t in store.Keys + Tokens(ms) :: ConvergedAt(store, ms, now, t)
  }

  lemma MapExtensionality<K, V>(a: map<K, V>, b: map<K, V>)
    requires forall k :: k in a <==> k in b
    requires forall k :: k in a ==> a[k] == b[k]
    ensures a == b
  {
  }

  /** Converging on no markers leaves the store as it was. */
  lemma ConvergedEmpty(store: Store, now: Time)
    ensures Converged(store, [], now) == store
  {
    MapExtensionality(Converged(store, [], now), store);
  }

  /** Key-wise step of `ConvergedStep`. */
  lemma ConvergedStepAt(store: Store, ms: seq<Marker>, now: Time, t: string)
    requires ms != [] && AllMappable(ms) && AllMappable(ms[1..])
    requires Tokens(ms) == {ms[0].token} + Tokens(ms[1..])
    requires t in store.Keys + Tokens(ms)
    ensures var s1 := Upsert(store, ms[0], now).value;
            t in s1.Keys + Tokens(ms[1..]) && ConvergedAt(s1, ms[1..], now, t) == ConvergedAt(store, ms, now, t)
  {
    var m, rest := ms[0], ms[1..];
    var s1 := Upsert(store, m, now).value;
    if t !in Tokens(ms) {
    } else if t !in Tokens(rest) {
      if t !in store {
        var c := CreateFields(m, now).value;
        assert Refresh(c, m.price, now) == c;
      }
    } else if t == m.token && t !in store {
      assert FirstWith(ms, t) == m;
    }
  }

  /** Upserting the head of `ms` and converging on the rest is converging on
      the whole sequence. */
  lemma ConvergedStep(store: Store, ms: seq<Marker>, now: Time)
    requires ms != [] && AllMappable(ms)
    ensures AllMappable(ms[1..])
    ensures Converged(Upsert(store, ms[0], now).value, ms[1..], now) == Converged(store, ms, now)
  {
    assert forall m :: m in ms[1..] ==> m in ms;
    var s1 := Upsert(store, ms[0], now).value;
    TokensCons(ms);
    var lhs, rhs := Converged(s1, ms[1..], now), Converged(store, ms, now);
    forall t ensures t in lhs <==> t in rhs {
    }
    forall t | t in rhs ensures lhs[t] == rhs[t] {
      ConvergedStepAt(store, ms, now, t);
    }
    MapExtensionality(lhs, rhs);
  }

  /** A completed loop leaves exactly the converged store. */
  lemma {:induction false} ReconcileConverges(store: Store, ms: seq<Marker>, now: Time, fault: Option<WriteFault>, base: nat)
    requires Reconcile(store, ms, now, fault, base).Completed?
    decreases |ms|
    ensures AllMappable(ms)
    ensures Reconcile(store, ms, now, fault, base).store == Converged(store, ms, now)
  {
    if ms == [] {
      ConvergedEmpty(store, now);
    } else {
      var next := Upsert(store, ms[0], now).value;
      ReconcileConverges(next, ms[1..], now, fault, base + 1);
      assert forall m :: m in ms ==> m == ms[0] || m in ms[1..];
      ConvergedStep(store, ms, now);
    }
  }

  /** The converged store holds exactly the old keys plus the feed's tokens. */
  lemma ConvergedKeys(store: Store, ms: seq<Marker>, now: Time)
    requires AllMappable(ms)
    ensures Converged(store, ms, now).Keys == store.Keys + Tokens(ms)
  {
  }

  /** The fault-free loop: upsert every marker of `ms` in order. */
  function Replay(store: Store, ms: seq<Marker>, now: Time): Store
    requires AllMappable(ms)
    decreases |ms|
  {
    if ms == [] then store
    else
      assert forall m :: m in ms[1..] ==> m in ms;
      Replay(Upsert(store, ms[0], now).value, ms[1..], now)
  }

  /** Replaying the markers in order reaches the converged store. */
  lemma {:induction false} ReplayConverges(store: Store, ms: seq<Marker>, now: Time)
    requires AllMappable(ms)
    decreases |ms|
    ensures Replay(store, ms, now) == Converged(store, ms, now)
  {
    if ms == [] {
      ConvergedEmpty(store, now);
    } else {
      ConvergedStep(store, ms, now);
      ReplayConverges(Upsert(store, ms[0], now).value, ms[1..], now);
    }
  }

  /** Replaying the first `k` markers is upserting the head and replaying the
      next `k - 1`. */
  lemma ReplayPrefixStep(store: Store, ms: seq<Marker>, now: Time, k: nat, s: Store)
    requires 0 < k <= |ms| && Mappable(ms[0])
    requires AllMappable(ms[1..][..k - 1])
    requires s == Replay(Upsert(store, ms[0], now).value, ms[1..][..k - 1], now)
    ensures AllMappable(ms[..k])
    ensures s == Replay(store, ms[..k], now)
  {
    var prefix := ms[..k];
    assert ms[1..][..k - 1] == prefix[1..];
    assert forall m :: m in prefix ==> m == ms[0] || m in prefix[1..];
  }

  /** When the loop over markers `base`, `base + 1`, ... stops at index
      `base + k`, the store it leaves is the fault-free replay of the first `k`
      markers, all of which mapped. */
  lemma {:induction false} ReconcileAbortsPrefix(store: Store, ms: seq<Marker>, now: Time, fault: Option<WriteFault>, base: nat,
                                                 s: Store, k: nat, e: Error)
    requires Reconcile(store, ms, now, fault, base) == Aborted(s, base + k, e)
    decreases |ms|
    ensures k < |ms|
    ensures AllMappable(ms[..k])
    ensures s == Replay(store, ms[..k], now)
  {
    ReconcileHead(store, ms, now, fault, base);
    var u := Upsert(store, ms[0], now);
    if u.Failure? || (fault.Some? && fault.value.index == base) {
      assert ms[..k] == [];
    } else {
      ReconcileAbortsPrefix(u.value, ms[1..], now, fault, base + 1, s, k - 1, e);
      ReplayPrefixStep(store, ms, now, k, s);
    }
  }

  /** A loop stopped at index `base + k` on a marker that does not map
      stopped with that marker's mapping error. */
  lemma {:induction false} ReconcileAbortMapping(store: Store, ms: seq<Marker>, now: Time, fault: Option<WriteFault>, base: nat,
                                                 s: Store, k: nat, e: Error)
    requires Reconcile(store, ms, now, fault, base) == Aborted(s, base + k, e)
    decreases |ms|
    ensures k < |ms|
    ensures !Mappable(ms[k]) ==> CreateFields(ms[k], now) == Failure(e)
  {
    ReconcileHead(store, ms, now, fault, base);
    var u := Upsert(store, ms[0], now);
    if u.Success? && !(fault.Some? && fault.value.index == base) {
      ReconcileAbortMapping(u.value, ms[1..], now, fault, base + 1, s, k - 1, e);
      assert ms[1..][k - 1] == ms[k];
    }
  }

  /** A loop stopped at index `base + k` on a marker that maps stopped on the
      write fault at that index; no write before it faulted. */
  lemma {:induction false} ReconcileAbortFault(store: Store, ms: seq<Marker>, now: Time, fault: Option<WriteFault>, base: nat,
                                               s: Store, k: nat, e: Error)
    requires Reconcile(store, ms, now, fault, base) == Aborted(s, base + k, e)
    decreases |ms|
    ensures k < |ms|
    ensures Mappable(ms[k]) ==> fault == Some(WriteFault(base + k, e))
    ensures !FaultWithin(fault, base, k)
  {
    ReconcileHead(store, ms, now, fault, base);
    var u := Upsert(store, ms[0], now);
    if u.Failure? {
    } else if fault.Some? && fault.value.index == base {
      assert fault == Some(WriteFault(fault.value.index, fault.value.error));
    } else {
      ReconcileAbortFault(u.value, ms[1..], now, fault, base + 1, s, k - 1, e);
      assert ms[1..][k - 1] == ms[k];
    }
  }

  /** Partial commit: when the loop stops at index `at`, the markers before it
      are applied exactly as a fault-free run over that prefix would apply
      them, and neither marker `at` nor any later one is applied. */
  lemma ReconcileAborts(store: Store, ms: seq<Marker>, now: Time, fault: Option<WriteFault>, s: Store, at: nat, e: Error)
    requires Reconcile(store, ms, now, fault, 0) == Aborted(s, at, e)
    ensures at < |ms|
    ensures AllMappable(ms[..at])
    ensures s == Converged(store, ms[..at], now)
    ensures s.Keys == store.Keys + Tokens(ms[..at])
  {
    ReconcileAbortsPrefix(store, ms, now, fault, 0, s, at, e);
    ReplayConverges(store, ms[..at], now);
    ConvergedKeys(store, ms[..at], now);
  }

  // ---------------------------------------------------------------------------
  // The run log and the whole run
  // ---------------------------------------------------------------------------

  datatype Status = SUCCESS | FAILURE

  /** One append-only run-log row. */
  datatype SyncLog = SyncLog(status: Status, itemsCount: Option<nat>, message: Option<string>)

  const SuccessMessage: string := "Successfully updated listings"
  const UnknownError: string := "Unknown error"

  /** The message logged for a failure: the error's own message when it is a
      non-empty string, otherwise the fallback text. */
  function FailureMessage(e: Error): (s: string)
    ensures Message(e).Some? && Message(e).value != "" ==> s == Message(e).value
    ensures Message(e).None? || Message(e) == Some("") ==> s == UnknownError
    ensures e.TypeError? ==> s == Message(e).value
  {
    var message := Message(e);
    if message.Some? && message.value != "" then message.value else UnknownError
  }

  /** Storage faults of one run: a listing write, the SUCCESS-row write, the
      FAILURE-row write. */
  datatype Faults = Faults(upsert: Option<WriteFault>, successLog: Option<Error>, failureLog: Option<Error>)

  const NoFaults: Faults := Faults(None, None, None)

  datatype State = State(store: Store, log: seq<SyncLog>)

  /** The state after a run and what the call did: returned `{ success: true,
      count }` (`Success(count)`) or threw (`Failure(error)`). */
  datatype Run = Run(state: State, outcome: Result<nat, Error>)

  /** The catch block: append a FAILURE row, then rethrow. If that append
      itself fails, its error is what propagates and no row is written. */
  function Fail(store: Store, log: seq<SyncLog>, e: Error, faults: Faults): Run
  {
    if faults.failureLog.Some? then Run(State(store, log), Failure(faults.failureLog.value))
    else Run(State(store, log + [SyncLog(FAILURE, None, Some(FailureMessage(e)))]), Failure(e))
  }

  /** One sync run: fetch result, marker loop, then the run-log row. */
  function FetchListings(st: State, feed: FeedResult, now: Time, faults: Faults): (r: Run)
    // the log is append-only and gains at most one row ...
    ensures |st.log| <= |r.state.log| <= |st.log| + 1
    ensures r.state.log[..|st.log|] == st.log
    // ... exactly one unless writing the FAILURE row fails
    ensures faults.failureLog.None? ==> |r.state.log| == |st.log| + 1
    // success returns the marker count and logs it
    ensures r.outcome.Success? <==>
              feed.Success? && AllMappable(feed.value)
              && !FaultWithin(faults.upsert, 0, |feed.value|) && faults.successLog.None?
    ensures r.outcome.Success? ==>
              && r.outcome.value == |feed.value|
              && r.state.log == st.log + [SyncLog(SUCCESS, Some(|feed.value|), Some(SuccessMessage))]
              && r.state.store == Converged(st.store, feed.value, now)
    // failure logs one FAILURE row with the message of the error it rethrows
    ensures r.outcome.Failure? && faults.failureLog.None? ==>
              r.state.log == st.log + [SyncLog(FAILURE, None, Some(FailureMessage(r.outcome.error)))]
    ensures r.outcome.Failure? && faults.failureLog.Some? ==>
              r.state.log == st.log && r.outcome.error == faults.failureLog.value
    // a failed fetch touches no listing
    ensures feed.Failure? ==> r.state.store == st.store && r.outcome.Failure?
    ensures feed.Failure? && faults.failureLog.None? ==> r.outcome.error == feed.error
  {
    match feed
    case Failure(e) => Fail(st.store, st.log, e, faults)
    case Success(ms) =>
      var rec := Reconcile(st.store, ms, now, faults.upsert, 0);
      ReconcileCompletes(st.store, ms, now, faults.upsert, 0);
      if rec.Aborted? then Fail(rec.store, st.log, rec.error, faults)
      else if faults.successLog.Some? then Fail(rec.store, st.log, faults.successLog.value, faults)
      else
        ReconcileConverges(st.store, ms, now, faults.upsert, 0);
        Run(State(rec.store, st.log + [SyncLog(SUCCESS, Some(|ms|), Some(SuccessMessage))]), Success(|ms|))
  }

  // ---------------------------------------------------------------------------
  // Properties of whole runs
  // ---------------------------------------------------------------------------

  /** A fault-free run over mappable markers returns the marker count, however
      many markers were creates and however many were updates, and leaves
      exactly the old keys plus the feed's tokens: no duplicate rows. */
  lemma SyncSucceeds(st: State, ms: seq<Marker>, now: Time)
    requires AllMappable(ms)
    ensures var r := FetchListings(st, Success(ms), now, NoFaults);
            && r.outcome == Success(|ms|)
            && r.state.store.Keys == st.store.Keys + Tokens(ms)
            && r.state.log == st.log + [SyncLog(SUCCESS, Some(|ms|), Some(SuccessMessage))]
  {
    ConvergedKeys(st.store, ms, now);
  }

  /** What a successful run writes under each key: a key the feed does not
      mention is untouched; a key it mentions carries the price of its LAST
      marker and the run's time as last-seen; an existing listing keeps every
      creation field and the user's annotations; a new listing is created from
      its FIRST marker, first seen now and not annotated. */
  lemma SyncListing(st: State, ms: seq<Marker>, now: Time, faults: Faults, t: string)
    requires FetchListings(st, Success(ms), now, faults).outcome.Success?
    ensures var s := FetchListings(st, Success(ms), now, faults).state.store;
            && (t in s <==> t in st.store || t in Tokens(ms))
            && (t in st.store && t !in Tokens(ms) ==> s[t] == st.store[t])
            && (t in Tokens(ms) ==> s[t].lastSeenAt == now)
            && (forall i :: 0 <= i < |ms| && ms[i].token == t && (forall j :: i < j < |ms| ==> ms[j].token != t)
                  ==> s[t].price == ms[i].price)
            && (t in st.store && t in Tokens(ms) ==> KeepsCreationFields(st.store[t], s[t]))
            && (t !in st.store && t in Tokens(ms) ==>
                  && s[t].id == t
                  && s[t].rawData == FirstWith(ms, t)
                  && s[t].yad2Id == FirstWith(ms, t).orderId
                  && s[t].firstSeenAt == now
                  && !s[t].isFavorite && !s[t].isHidden)
  {
    var s := FetchListings(st, Success(ms), now, faults).state.store;
    assert s == Converged(st.store, ms, now);
    forall i | 0 <= i < |ms| && ms[i].token == t && (forall j :: i < j < |ms| ==> ms[j].token != t)
      ensures s[t].price == ms[i].price
    {
      LatestPriceIsLastOccurrence(ms, t, i);
    }
  }

  /** The loop stops at the faulting write `k` when every marker up to `k`
      maps, leaving the store converged on the markers before `k`. */
  lemma ReconcileWriteFault(store: Store, ms: seq<Marker>, now: Time, k: nat, e: Error)
    requires k < |ms| && AllMappable(ms[..k + 1])
    ensures var rec := Reconcile(store, ms, now, Some(WriteFault(k, e)), 0);
            && rec.Aborted? && rec.at == k && rec.error == e
            && AllMappable(ms[..k])
            && rec.store == Converged(store, ms[..k], now)
            && rec.store.Keys == store.Keys + Tokens(ms[..k])
  {
    var fault := Some(WriteFault(k, e));
    ReconcileCompletes(store, ms, now, fault, 0);
    var rec := Reconcile(store, ms, now, fault, 0);
    ReconcileAbortFault(store, ms, now, fault, 0, rec.store, rec.at, rec.error);
    assert rec.at <= k;
    assert ms[rec.at] == ms[..k + 1][rec.at];
    assert Mappable(ms[rec.at]);
    assert rec.at == k && rec.error == e;
    ReconcileAborts(store, ms, now, fault, rec.store, rec.at, rec.error);
  }

  /** Every marker of a mappable prefix maps, index by index. */
  lemma MappablePrefix(ms: seq<Marker>, k: nat)
    requires k <= |ms| && AllMappable(ms[..k])
    ensures forall i :: 0 <= i < k ==> Mappable(ms[i])
  {
    forall i | 0 <= i < k ensures Mappable(ms[i]) {
      assert ms[i] in ms[..k];
    }
  }

  /** The loop stops at the first marker that does not map, with that
      marker's mapping error, leaving the store converged on the markers
      before it. A write fault at that marker or later is never reached. */
  lemma ReconcileMappingFailure(store: Store, ms: seq<Marker>, now: Time, fault: Option<WriteFault>, k: nat)
    requires k < |ms| && AllMappable(ms[..k]) && !Mappable(ms[k])
    requires !FaultWithin(fault, 0, k)
    ensures var rec := Reconcile(store, ms, now, fault, 0);
            && rec.Aborted? && rec.at == k
            && CreateFields(ms[k], now) == Failure(rec.error)
            && rec.store == Converged(store, ms[..k], now)
  {
    ReconcileCompletes(store, ms, now, fault, 0);
    assert ms[k] in ms;
    var rec := Reconcile(store, ms, now, fault, 0);
    ReconcileAbortMapping(store, ms, now, fault, 0, rec.store, rec.at, rec.error);
    ReconcileAbortFault(store, ms, now, fault, 0, rec.store, rec.at, rec.error);
    ReconcileAborts(store, ms, now, fault, rec.store, rec.at, rec.error);
    MappablePrefix(ms, k);
    MappablePrefix(ms, rec.at);
  }

  /** A run whose marker loop stops rethrows the loop's own error and logs
      its message, unless writing the FAILURE row fails; the markers before
      the stopping one stay applied. `ReconcileAbortMapping` and
      `ReconcileAbortFault` say which error that is. */
  lemma SyncLoopFailure(st: State, ms: seq<Marker>, now: Time, faults: Faults, s: Store, at: nat, e: Error)
    requires Reconcile(st.store, ms, now, faults.upsert, 0) == Aborted(s, at, e)
    requires faults.failureLog.None?
    ensures at < |ms| && AllMappable(ms[..at])
    ensures var r := FetchListings(st, Success(ms), now, faults);
            && r.outcome == Failure(e)
            && r.state.log == st.log + [SyncLog(FAILURE, None, Some(FailureMessage(e)))]
            && r.state.store == Converged(st.store, ms[..at], now)
  {
    ReconcileAborts(st.store, ms, now, faults.upsert, s, at, e);
    assert FetchListings(st, Success(ms), now, faults) == Fail(s, st.log, e, faults);
  }

  /** A marker missing a required nested object fails the run even when its
      listing already exists, and whatever later writes would have failed:
      the markers before it stay applied, a FAILURE row carries the
      runtime's TypeError message and that error is rethrown. */
  lemma SyncMappingFailure(st: State, ms: seq<Marker>, now: Time, faults: Faults, k: nat)
    requires k < |ms| && AllMappable(ms[..k]) && !Mappable(ms[k])
    requires !FaultWithin(faults.upsert, 0, k) && faults.failureLog.None?
    ensures var r := FetchListings(st, Success(ms), now, faults);
            && r.outcome.Failure? && r.outcome.error.TypeError?
            && CreateFields(ms[k], now) == Failure(r.outcome.error)
            && r.state.store == Converged(st.store, ms[..k], now)
            && r.state.log == st.log + [SyncLog(FAILURE, None, Message(r.outcome.error))]
  {
    ReconcileMappingFailure(st.store, ms, now, faults.upsert, k);
    SyncStore(st, Success(ms), now, faults);
  }

  /** Partial commit of a failed write: when the write of marker `k` fails
      and the markers up to `k` all map, the markers before `k` stay applied,
      marker `k` and every later one are not applied, one FAILURE row carries
      the error's message and the same error is rethrown. */
  lemma SyncWriteFailure(st: State, ms: seq<Marker>, now: Time, k: nat, e: Error)
    requires k < |ms| && AllMappable(ms[..k + 1])
    ensures var r := FetchListings(st, Success(ms), now, Faults(Some(WriteFault(k, e)), None, None));
            && r.outcome == Failure(e)
            && AllMappable(ms[..k])
            && r.state.store == Converged(st.store, ms[..k], now)
            && r.state.store.Keys == st.store.Keys + Tokens(ms[..k])
            && r.state.log == st.log + [SyncLog(FAILURE, None, Some(FailureMessage(e)))]
  {
    var faults := Faults(Some(WriteFault(k, e)), None, None);
    ReconcileWriteFault(st.store, ms, now, k, e);
    SyncStore(st, Success(ms), now, faults);
  }

  /** Running the same feed twice without faults at times `t1` and `t2`
      leaves the keys and listings of the first run, except that every
      listing the feed mentions is last seen at `t2`; each run appends its
      own SUCCESS row. */
  lemma SyncTwice(st: State, ms: seq<Marker>, t1: Time, t2: Time)
    requires AllMappable(ms)
    ensures var r1 := FetchListings(st, Success(ms), t1, NoFaults);
            var r2 := FetchListings(r1.state, Success(ms), t2, NoFaults);
            && r2.outcome == Success(|ms|)
            && r2.state.store.Keys == r1.state.store.Keys
            && (forall t :: t in r1.state.store ==>
                  r2.state.store[t] == if t in Tokens(ms) then r1.state.store[t].(lastSeenAt := t2)
                                       else r1.state.store[t])
            && |r2.state.log| == |st.log| + 2
  {
    var s1 := Converged(st.store, ms, t1);
    var s2 := Converged(s1, ms, t2);
    ConvergedKeys(st.store, ms, t1);
    ConvergedKeys(s1, ms, t2);
    forall t | t in s1
      ensures s2[t] == if t in Tokens(ms) then s1[t].(lastSeenAt := t2) else s1[t]
    {
      assert s2[t] == ConvergedAt(s1, ms, t2, t);
      assert s1[t] == ConvergedAt(st.store, ms, t1, t);
    }
  }

  /** Every stored listing sits under its own id and was first seen no later
      than last seen. */
  predicate WellFormed(store: Store)
  {
    forall t :: t in store ==> store[t].id == t && store[t].firstSeenAt <= store[t].lastSeenAt
  }

  /** No stored listing was last seen after `now`: the clock does not run
      backwards between runs. */
  predicate SeenBy(store: Store, now: Time)
  {
    forall t :: t in store ==> store[t].lastSeenAt <= now
  }

  lemma ConvergedWellFormed(store: Store, ms: seq<Marker>, now: Time)
    requires AllMappable(ms) && WellFormed(store) && SeenBy(store, now)
    ensures WellFormed(Converged(store, ms, now)) && SeenBy(Converged(store, ms, now), now)
  {
    var s := Converged(store, ms, now);
    forall t | t in s ensures s[t].id == t && s[t].firstSeenAt <= s[t].lastSeenAt <= now {
      assert s[t] == ConvergedAt(store, ms, now, t);
    }
  }

  /** The store a run leaves is the one its marker loop left. */
  lemma SyncStore(st: State, feed: FeedResult, now: Time, faults: Faults)
    ensures feed.Failure? ==> FetchListings(st, feed, now, faults).state.store == st.store
    ensures feed.Success? ==>
              FetchListings(st, feed, now, faults).state.store == Reconcile(st.store, feed.value, now, faults.upsert, 0).store
  {
  }

  /** The marker loop, whether it completes or stops, keeps the store
      well formed when its clock is not behind any stored last-seen time. */
  lemma ReconcilePreservesWellFormed(store: Store, ms: seq<Marker>, now: Time, fault: Option<WriteFault>)
    requires WellFormed(store) && SeenBy(store, now)
    ensures WellFormed(Reconcile(store, ms, now, fault, 0).store)
    ensures SeenBy(Reconcile(store, ms, now, fault, 0).store, now)
  {
    var rec := Reconcile(store, ms, now, fault, 0);
    if rec.Completed? {
      ReconcileConverges(store, ms, now, fault, 0);
      ConvergedWellFormed(store, ms, now);
    } else {
      ReconcileAborts(store, ms, now, fault, rec.store, rec.at, rec.error);
      ConvergedWellFormed(store, ms[..rec.at], now);
    }
  }

  /** Whatever the feed and the faults, a run keeps ids unique and aligned with
      their keys, and `firstSeenAt <= lastSeenAt`, provided its clock is not
      behind any stored last-seen time. */
  lemma SyncPreservesWellFormed(st: State, feed: FeedResult, now: Time, faults: Faults)
    requires WellFormed(st.store) && SeenBy(st.store, now)
    ensures WellFormed(FetchListings(st, feed, now, faults).state.store)
    ensures SeenBy(FetchListings(st, feed, now, faults).state.store, now)
  {
    SyncStore(st, feed, now, faults);
    if feed.Success? {
      ReconcilePreservesWellFormed(st.store, feed.value, now, faults.upsert);
    }
  }

  /** When every listing write succeeds but the SUCCESS row cannot be
      written, the catch block still runs: all markers stay applied, a FAILURE
      row is appended and the row-write error is rethrown. */
  lemma SyncSuccessRowFails(st: State, ms: seq<Marker>, now: Time, e: Error)
    requires AllMappable(ms)
    ensures var r := FetchListings(st, Success(ms), now, Faults(None, Some(e), None));
            && r.outcome == Failure(e)
            && r.state.store == Converged(st.store, ms, now)
            && r.state.log == st.log + [SyncLog(FAILURE, None, Some(FailureMessage(e)))]
  {
    ReconcileCompletes(st.store, ms, now, None, 0);
    ReconcileConverges(st.store, ms, now, None, 0);
  }

  /** A feed with one new marker, then the same token at a lower price: the
      first run creates the listing, the second changes only its price and
      last-seen time. */
  lemma RepricedListing(st: State, m: Marker, t1: Time, t2: Time, newPrice: int)
    requires Mappable(m) && m.token !in st.store
    ensures var r1 := FetchListings(st, Success([m]), t1, NoFaults);
            var r2 := FetchListings(r1.state, Success([m.(price := newPrice)]), t2, NoFaults);
            var l1 := r1.state.store[m.token];
            var l2 := r2.state.store[m.token];
            && r1.outcome == Success(1) && r2.outcome == Success(1)
            && l1 == CreateFields(m, t1).value
            && l1.firstSeenAt == l1.lastSeenAt == t1
            && l2 == l1.(price := newPrice, lastSeenAt := t2)
            && |r2.state.log| == |st.log| + 2
  {
    var m2 := m.(price := newPrice);
    assert Tokens([m]) == {m.token};
    assert Tokens([m2]) == {m.token};
    var r1 := FetchListings(st, Success([m]), t1, NoFaults);
    SyncSucceeds(st, [m], t1);
    SyncSucceeds(r1.state, [m2], t2);
    SyncListing(st, [m], t1, NoFaults, m.token);
    SyncListing(r1.state, [m2], t2, NoFaults, m.token);
    assert r1.state.store[m.token] == ConvergedAt(st.store, [m], t1, m.token);
    assert FirstWith([m], m.token) == m;
    assert LatestPrice([m], m.token) == m.price;
    assert LatestPrice([m2], m.token) == newPrice;
  }
}
