/**
  The two-generation contact tracker (src/physics/collision/resources.rs) and
  `emit_collision_events` (src/physics/collision/systems.rs), which turns
  "which pairs touch this tick" into edge-triggered Started / Stopped events.
  The maps are iterated in an unspecified order, so the model picks keys with
  `:|` and the contracts fix only what every order has in common.
*/
module ContactTracking {
  import opened Wrappers
  import opened Components
  import opened Collision

  /** The events the tracker writes. */
  datatype CollisionEvent =
    | Started(a: Entity, b: Entity, impulse: real, vAN: real, vBN: real)
    | Stopped(a: Entity, b: Entity)
  {
    function Key(): ContactKey { (a, b) }
  }

  //------------------------------------------------------------------
  // What one tick's events must be
  //------------------------------------------------------------------

  function EventKeys(evs: seq<CollisionEvent>): set<ContactKey> {
    set i | 0 <= i < |evs| :: evs[i].Key()
  }

  predicate DistinctKeys(evs: seq<CollisionEvent>) {
    forall i, j :: 0 <= i < j < |evs| ==> evs[i].Key() != evs[j].Key()
  }

  /** Every Started event precedes every Stopped event. */
  predicate StartsBeforeStops(evs: seq<CollisionEvent>) {
    forall i, j :: 0 <= i < j < |evs| && evs[i].Stopped? ==> evs[j].Stopped?
  }

  /** A Started event is for a new pair and carries its current data; a Stopped event is for a pair that ended. */
  predicate EventFits(ev: CollisionEvent, cur: map<ContactKey, ContactData>, prev: map<ContactKey, ContactData>) {
    match ev
    case Started(a, b, impulse, vAN, vBN) =>
      (a, b) in cur && (a, b) !in prev && cur[(a, b)] == ContactData(impulse, vAN, vBN)
    case Stopped(a, b) =>
      (a, b) in prev && (a, b) !in cur
  }

  predicate AllFit(evs: seq<CollisionEvent>, cur: map<ContactKey, ContactData>, prev: map<ContactKey, ContactData>) {
    forall i :: 0 <= i < |evs| ==> EventFits(evs[i], cur, prev)
  }

  /**
    The events of one tick going from contacts `prev` to contacts `cur`: one
    event per pair in exactly one of the two maps, Started ones first.
  */
  predicate TickEvents(evs: seq<CollisionEvent>, cur: map<ContactKey, ContactData>, prev: map<ContactKey, ContactData>) {
    && AllFit(evs, cur, prev)
    && DistinctKeys(evs)
    && StartsBeforeStops(evs)
    && EventKeys(evs) == (cur.Keys - prev.Keys) + (prev.Keys - cur.Keys)
  }

  lemma EventKeysAppend(evs: seq<CollisionEvent>, ev: CollisionEvent)
    ensures EventKeys(evs + [ev]) == EventKeys(evs) + {ev.Key()}
  {
    var s := evs + [ev];
    assert s[|evs|] == ev;
    forall k | k in EventKeys(evs) ensures k in EventKeys(s) {
      var i :| 0 <= i < |evs| && evs[i].Key() == k;
      assert s[i] == evs[i];
    }
  }

  /**
    `evs` reports the pairs `keys` so far: fitting events with distinct pairs,
    Started ones first, and only Started ones when `onlyStarted` holds.
  */
  predicate Reports(evs: seq<CollisionEvent>, cur: map<ContactKey, ContactData>, prev: map<ContactKey, ContactData>,
                    keys: set<ContactKey>, onlyStarted: bool)
  {
    && AllFit(evs, cur, prev)
    && DistinctKeys(evs)
    && StartsBeforeStops(evs)
    && (onlyStarted ==> forall i :: 0 <= i < |evs| ==> evs[i].Started?)
    && EventKeys(evs) == keys
  }

  /** Appending a fitting event for a pair not yet reported extends the report by that pair. */
  lemma AppendEvent(evs: seq<CollisionEvent>, ev: CollisionEvent, cur: map<ContactKey, ContactData>, prev: map<ContactKey, ContactData>,
                    keys: set<ContactKey>, onlyStarted: bool)
    requires Reports(evs, cur, prev, keys, onlyStarted) && EventFits(ev, cur, prev)
    requires ev.Key() !in keys
    requires if onlyStarted then ev.Started? else ev.Stopped?
    ensures Reports(evs + [ev], cur, prev, keys + {ev.Key()}, onlyStarted)
  {
    EventKeysAppend(evs, ev);
    var s := evs + [ev];
    forall i, j | 0 <= i < j < |s| ensures s[i].Key() != s[j].Key() {
      if j == |evs| {
        assert s[i] == evs[i];
        assert evs[i].Key() in EventKeys(evs);
      }
    }
    if !onlyStarted {
      forall i, j | 0 <= i < j < |s| && s[i].Stopped? ensures s[j].Stopped? {
        if j < |evs| {
          assert s[i] == evs[i] && s[j] == evs[j];
        }
      }
    }
  }

  //------------------------------------------------------------------
  // The diff
  //------------------------------------------------------------------

  function StartedOf(pair: ContactKey, data: ContactData): CollisionEvent {
    Started(pair.0, pair.1, data.impulse, data.vAN, data.vBN)
  }

  /** One turn of the first loop: `pair`, taken from the pairs still to visit, is reported if it is new. */
  lemma StartedStep(evs: seq<CollisionEvent>, todo: set<ContactKey>, pair: ContactKey,
                    cur: map<ContactKey, ContactData>, prev: map<ContactKey, ContactData>)
    requires todo <= cur.Keys && pair in todo
    requires Reports(evs, cur, prev, (cur.Keys - todo) - prev.Keys, true)
    ensures Reports(if pair in prev then evs else evs + [StartedOf(pair, cur[pair])],
                    cur, prev, (cur.Keys - (todo - {pair})) - prev.Keys, true)
  {
    var done := (cur.Keys - todo) - prev.Keys;
    if pair !in prev {
      AppendEvent(evs, StartedOf(pair, cur[pair]), cur, prev, done, true);
      assert (cur.Keys - (todo - {pair})) - prev.Keys == done + {pair};
    } else {
      assert (cur.Keys - (todo - {pair})) - prev.Keys == done;
    }
  }

  /** The first loop of `emit_collision_events`: a Started event for every pair of `cur` missing from `prev`. */
  method StartedEvents(cur: map<ContactKey, ContactData>, prev: map<ContactKey, ContactData>)
    returns (evs: seq<CollisionEvent>)
    ensures Reports(evs, cur, prev, cur.Keys - prev.Keys, true)
  {
    evs := [];
    var todo := cur.Keys;
    while todo != {}
      invariant todo <= cur.Keys
      invariant Reports(evs, cur, prev, (cur.Keys - todo) - prev.Keys, true)
      decreases |todo|
    {
      var pair :| pair in todo;
      StartedStep(evs, todo, pair, cur, prev);
      if pair !in prev {
        evs := evs + [StartedOf(pair, cur[pair])];
      }
      todo := todo - {pair};
    }
  }

  /** One turn of the second loop: `pair`, taken from the pairs of `prev` still to visit, is reported if it ended. */
  lemma StoppedStep(evs: seq<CollisionEvent>, todo: set<ContactKey>, pair: ContactKey,
                    cur: map<ContactKey, ContactData>, prev: map<ContactKey, ContactData>)
    requires todo <= prev.Keys && pair in todo
    requires Reports(evs, cur, prev, (cur.Keys - prev.Keys) + ((prev.Keys - todo) - cur.Keys), false)
    ensures Reports(if pair in cur then evs else evs + [Stopped(pair.0, pair.1)],
                    cur, prev, (cur.Keys - prev.Keys) + ((prev.Keys - (todo - {pair})) - cur.Keys), false)
  {
    var done := (cur.Keys - prev.Keys) + ((prev.Keys - todo) - cur.Keys);
    if pair !in cur {
      AppendEvent(evs, Stopped(pair.0, pair.1), cur, prev, done, false);
      assert (cur.Keys - prev.Keys) + ((prev.Keys - (todo - {pair})) - cur.Keys) == done + {pair};
    } else {
      assert (cur.Keys - prev.Keys) + ((prev.Keys - (todo - {pair})) - cur.Keys) == done;
    }
  }

  /** The second loop: a Stopped event for every pair of `prev` missing from `cur`, after the Started events `started`. */
  method StoppedEvents(cur: map<ContactKey, ContactData>, prev: map<ContactKey, ContactData>, started: seq<CollisionEvent>)
    returns (evs: seq<CollisionEvent>)
    requires Reports(started, cur, prev, cur.Keys - prev.Keys, true)
    ensures TickEvents(evs, cur, prev)
    ensures |started| <= |evs| && evs[..|started|] == started
  {
    evs := started;
    var todo := prev.Keys;
    while todo != {}
      invariant todo <= prev.Keys
      invariant |started| <= |evs| && evs[..|started|] == started
      invariant Reports(evs, cur, prev, (cur.Keys - prev.Keys) + ((prev.Keys - todo) - cur.Keys), false)
      decreases |todo|
    {
      var pair :| pair in todo;
      StoppedStep(evs, todo, pair, cur, prev);
      if pair !in cur {
        evs := evs + [Stopped(pair.0, pair.1)];
      }
      todo := todo - {pair};
    }
  }

  /**
    `emit_collision_events` without the resource: the Started events of the
    first loop followed by the Stopped events of the second.
  */
  method DiffContacts(cur: map<ContactKey, ContactData>, prev: map<ContactKey, ContactData>)
    returns (evs: seq<CollisionEvent>)
    ensures TickEvents(evs, cur, prev)
  {
    var started := StartedEvents(cur, prev);
    evs := StoppedEvents(cur, prev, started);
  }

  /** A pair gets a Started event exactly when it is new, and a Stopped event exactly when it ended. */
  lemma TickEventsPerPair(evs: seq<CollisionEvent>, cur: map<ContactKey, ContactData>, prev: map<ContactKey, ContactData>, k: ContactKey)
    requires TickEvents(evs, cur, prev)
    ensures (exists i :: 0 <= i < |evs| && evs[i].Key() == k && evs[i].Started?) <==> k in cur && k !in prev
    ensures (exists i :: 0 <= i < |evs| && evs[i].Key() == k && evs[i].Stopped?) <==> k in prev && k !in cur
    ensures |evs| == |cur.Keys - prev.Keys| + |prev.Keys - cur.Keys|
  {
    if k in cur.Keys - prev.Keys || k in prev.Keys - cur.Keys {
      assert k in EventKeys(evs);
      var i :| 0 <= i < |evs| && evs[i].Key() == k;
      assert EventFits(evs[i], cur, prev);
    }
    DistinctCount(evs);
  }

  lemma {:induction false} DistinctCount(evs: seq<CollisionEvent>)
    requires DistinctKeys(evs)
    ensures |EventKeys(evs)| == |evs|
  {
    if evs != [] {
      var init := evs[..|evs| - 1];
      var last := evs[|evs| - 1];
      assert evs == init + [last];
      assert DistinctKeys(init);
      DistinctCount(init);
      EventKeysAppend(init, last);
      assert last.Key() !in EventKeys(init);
    }
  }

  //------------------------------------------------------------------
  // The resource
  //------------------------------------------------------------------

  /** The `Contacts` resource: the pairs touching in this tick and in the previous one. */
  class Contacts {
    var current: map<ContactKey, ContactData>
    var prev: map<ContactKey, ContactData>

    constructor ()
      ensures current == map[] && prev == map[]
    {
      current := map[];
      prev := map[];
    }

    /** `contacts.current.insert(key, data)`: a later contact of the same pair overwrites an earlier one. */
    method Record(key: ContactKey, data: ContactData)
      modifies this
      ensures current == old(current)[key := data] && prev == old(prev)
    {
      current := current[key := data];
    }

    /**
      `emit_collision_events`: takes `current`, writes the tick's events and
      makes the taken map the new `prev`.
    */
    method EmitCollisionEvents() returns (evs: seq<CollisionEvent>)
      modifies this
      ensures TickEvents(evs, old(current), old(prev))
      ensures prev == old(current) && current == map[]
    {
      var taken := current;
      current := map[];
      evs := DiffContacts(taken, prev);
      prev := taken;
    }
  }

  //------------------------------------------------------------------
  // Over many ticks
  //------------------------------------------------------------------

  /** For a pair, the edge a tick from contact set `before` to `now` produces: Some(true) starts, Some(false) stops. */
  function Edge(k: ContactKey, now: set<ContactKey>, before: set<ContactKey>): (r: Option<bool>)
    ensures r == Some(true) <==> k in now && k !in before
    ensures r == Some(false) <==> k in before && k !in now
  {
    if k in now && k !in before then Some(true)
    else if k in before && k !in now then Some(false)
    else None
  }

  function Last(ticks: seq<set<ContactKey>>, start: set<ContactKey>): set<ContactKey> {
    if ticks == [] then start else ticks[|ticks| - 1]
  }

  /** The edges of pair `k` over successive ticks whose contact sets are `ticks`, the tracker starting from `start`. */
  function History(k: ContactKey, ticks: seq<set<ContactKey>>, start: set<ContactKey>): seq<bool> {
    if ticks == [] then []
    else
      var before := ticks[..|ticks| - 1];
      var h := History(k, before, start);
      match Edge(k, ticks[|ticks| - 1], Last(before, start))
      case Some(b) => h + [b]
      case None => h
  }

  /**
    Edge triggering: a pair's events alternate, the first is a Started
    exactly when the pair was not touching at the start, and after the last
    one the pair is touching exactly when that last one was a Started.
  */
  lemma {:induction false} HistoryAlternates(k: ContactKey, ticks: seq<set<ContactKey>>, start: set<ContactKey>)
    ensures var h := History(k, ticks, start);
      && (forall i :: 0 <= i < |h| - 1 ==> h[i] != h[i + 1])
      && (|h| > 0 ==> h[0] == (k !in start))
      && (|h| > 0 ==> h[|h| - 1] == (k in Last(ticks, start)))
      && (|h| == 0 ==> (k in Last(ticks, start)) == (k in start))
  {
    if ticks != [] {
      var before := ticks[..|ticks| - 1];
      HistoryAlternates(k, before, start);
      var h := History(k, before, start);
      var now := ticks[|ticks| - 1];
      match Edge(k, now, Last(before, start))
      case Some(b) =>
        assert History(k, ticks, start) == h + [b];
      case None =>
        assert History(k, ticks, start) == h;
    }
  }

  //------------------------------------------------------------------
  // The tracker's own events over many ticks
  //------------------------------------------------------------------

  /** The events of `evs` about pair `k`, in order: true for a Started event, false for a Stopped one. */
  function KeyEdges(k: ContactKey, evs: seq<CollisionEvent>): seq<bool> {
    if evs == [] then []
    else
      var last := evs[|evs| - 1];
      KeyEdges(k, evs[..|evs| - 1]) + (if last.Key() == k then [last.Started?] else [])
  }

  function EdgeSeq(o: Option<bool>): seq<bool> {
    if o.Some? then [o.value] else []
  }

  /** Among events with distinct pairs, those about `k` are none, or the single one naming it. */
  lemma {:induction false} KeyEdgesDistinct(k: ContactKey, evs: seq<CollisionEvent>)
    requires DistinctKeys(evs)
    ensures k !in EventKeys(evs) ==> KeyEdges(k, evs) == []
    ensures forall i :: 0 <= i < |evs| && evs[i].Key() == k ==> KeyEdges(k, evs) == [evs[i].Started?]
  {
    if evs != [] {
      var init := evs[..|evs| - 1];
      var last := evs[|evs| - 1];
      assert DistinctKeys(init);
      KeyEdgesDistinct(k, init);
      EventKeysAppend(init, last);
      assert evs == init + [last];
      if last.Key() == k {
        forall j | 0 <= j < |init| ensures init[j].Key() != k {
          assert init[j] == evs[j];
        }
      }
      forall i | 0 <= i < |evs| && evs[i].Key() == k ensures KeyEdges(k, evs) == [evs[i].Started?] {
        if i < |init| {
          assert init[i] == evs[i];
        }
      }
    }
  }

  /**
    The events one tick writes about pair `k` are exactly its edge from the
    previous contact set to the current one: a Started event when the pair
    is new, a Stopped event when it ended, and no event otherwise.
  */
  lemma EdgeOfTick(evs: seq<CollisionEvent>, cur: map<ContactKey, ContactData>, prev: map<ContactKey, ContactData>, k: ContactKey)
    requires TickEvents(evs, cur, prev)
    ensures Edge(k, cur.Keys, prev.Keys) == Some(true) <==> exists i :: 0 <= i < |evs| && evs[i].Key() == k && evs[i].Started?
    ensures Edge(k, cur.Keys, prev.Keys) == Some(false) <==> exists i :: 0 <= i < |evs| && evs[i].Key() == k && evs[i].Stopped?
    ensures Edge(k, cur.Keys, prev.Keys) == None <==> k !in EventKeys(evs)
    ensures KeyEdges(k, evs) == EdgeSeq(Edge(k, cur.Keys, prev.Keys))
  {
    TickEventsPerPair(evs, cur, prev, k);
    KeyEdgesDistinct(k, evs);
    if k in EventKeys(evs) {
      var i :| 0 <= i < |evs| && evs[i].Key() == k;
      assert EventFits(evs[i], cur, prev);
    }
  }

  /**
    `runs[t]` are the events of tick `t`, whose contact map is `ticks[t]`:
    each tick's `prev` is the previous tick's `current`, the first one's is
    `start`.  This is what successive `EmitCollisionEvents` calls produce.
  */
  ghost predicate Run(runs: seq<seq<CollisionEvent>>, ticks: seq<map<ContactKey, ContactData>>, start: map<ContactKey, ContactData>) {
    && |runs| == |ticks|
    && forall t {:trigger runs[t]} :: 0 <= t < |ticks| ==> TickEvents(runs[t], ticks[t], Before(ticks, start, t))
  }

  /** The contacts of the tick before tick `t`. */
  function Before(ticks: seq<map<ContactKey, ContactData>>, start: map<ContactKey, ContactData>, t: nat): map<ContactKey, ContactData>
    requires t <= |ticks|
  {
    if t == 0 then start else ticks[t - 1]
  }

  /** The events about pair `k` over a run of ticks, tick after tick. */
  function RunEdges(k: ContactKey, runs: seq<seq<CollisionEvent>>): seq<bool> {
    if runs == [] then [] else RunEdges(k, runs[..|runs| - 1]) + KeyEdges(k, runs[|runs| - 1])
  }

  function KeySets(ticks: seq<map<ContactKey, ContactData>>): (r: seq<set<ContactKey>>)
    ensures |r| == |ticks| && forall t :: 0 <= t < |ticks| ==> r[t] == ticks[t].Keys
  {
    seq(|ticks|, t requires 0 <= t < |ticks| => ticks[t].Keys)
  }

  /** A prefix of a run is a run. */
  lemma RunPrefix(runs: seq<seq<CollisionEvent>>, ticks: seq<map<ContactKey, ContactData>>, start: map<ContactKey, ContactData>, n: nat)
    requires Run(runs, ticks, start) && n <= |ticks|
    ensures Run(runs[..n], ticks[..n], start)
  {
    forall t | 0 <= t < n
      ensures TickEvents(runs[..n][t], ticks[..n][t], Before(ticks[..n], start, t))
    {
      assert runs[..n][t] == runs[t] && ticks[..n][t] == ticks[t];
      assert Before(ticks[..n], start, t) == Before(ticks, start, t);
    }
  }

  lemma HistoryStep(k: ContactKey, ticks: seq<set<ContactKey>>, start: set<ContactKey>)
    requires ticks != []
    ensures History(k, ticks, start)
         == History(k, ticks[..|ticks| - 1], start) + EdgeSeq(Edge(k, ticks[|ticks| - 1], Last(ticks[..|ticks| - 1], start)))
  {
  }

  lemma TickEdge(k: ContactKey, evs: seq<CollisionEvent>, cur: map<ContactKey, ContactData>, prev: map<ContactKey, ContactData>,
                 now: set<ContactKey>, before: set<ContactKey>)
    requires TickEvents(evs, cur, prev) && now == cur.Keys && before == prev.Keys
    ensures KeyEdges(k, evs) == EdgeSeq(Edge(k, now, before))
  {
    EdgeOfTick(evs, cur, prev, k);
  }

  lemma LastIsBefore(ticks: seq<map<ContactKey, ContactData>>, start: map<ContactKey, ContactData>, t: nat)
    requires t <= |ticks|
    ensures Last(KeySets(ticks)[..t], start.Keys) == Before(ticks, start, t).Keys
  {
    if t > 0 {
      assert KeySets(ticks)[..t][t - 1] == KeySets(ticks)[t - 1];
    }
  }

  /** The events the tracker writes about a pair over a run of ticks are the pair's `History`. */
  lemma {:induction false} RunHistory(k: ContactKey, runs: seq<seq<CollisionEvent>>,
                                      ticks: seq<map<ContactKey, ContactData>>, start: map<ContactKey, ContactData>)
    requires Run(runs, ticks, start)
    ensures RunEdges(k, runs) == History(k, KeySets(ticks), start.Keys)
  {
    if ticks != [] {
      var n := |ticks|;
      var ks := KeySets(ticks);
      var before := Before(ticks, start, n - 1);
      assert RunEdges(k, runs[..n - 1]) == History(k, ks[..n - 1], start.Keys) by {
        RunPrefix(runs, ticks, start, n - 1);
        RunHistory(k, runs[..n - 1], ticks[..n - 1], start);
        assert ks[..n - 1] == KeySets(ticks[..n - 1]);
      }
      assert TickEvents(runs[n - 1], ticks[n - 1], before);
      LastIsBefore(ticks, start, n - 1);
      TickEdge(k, runs[n - 1], ticks[n - 1], before, ks[n - 1], Last(ks[..n - 1], start.Keys));
      HistoryStep(k, ks, start.Keys);
    }
  }

  /**
    Edge triggering of the tracker's own events: over a run of ticks a
    pair's events alternate, the first is a Started exactly when the pair
    was not touching at the start, and after the last one the pair is
    touching exactly when that one was a Started.
  */
  lemma RunAlternates(k: ContactKey, runs: seq<seq<CollisionEvent>>,
                      ticks: seq<map<ContactKey, ContactData>>, start: map<ContactKey, ContactData>)
    requires Run(runs, ticks, start)
    ensures var h := RunEdges(k, runs);
      && (forall i :: 0 <= i < |h| - 1 ==> h[i] != h[i + 1])
      && (|h| > 0 ==> h[0] == (k !in start))
      && (|h| > 0 ==> h[|h| - 1] == (k in Before(ticks, start, |ticks|)))
  {
    RunHistory(k, runs, ticks, start);
    HistoryAlternates(k, KeySets(ticks), start.Keys);
  }

  /**
    Successive ticks of the tracker: in tick `t` the detection systems leave
    `ticks[t]` in `current` (the previous `EmitCollisionEvents` emptied it),
    then `EmitCollisionEvents` runs.  The events written form a `Run`.
  */
  method RunTicks(c: Contacts, ticks: seq<map<ContactKey, ContactData>>) returns (runs: seq<seq<CollisionEvent>>)
    modifies c
    ensures Run(runs, ticks, old(c.prev))
    ensures ticks != [] ==> c.current == map[]
    ensures c.prev == Before(ticks, old(c.prev), |ticks|)
  {
    runs := [];
    ghost var start := c.prev;
    for t := 0 to |ticks|
      invariant Run(runs, ticks[..t], start)
      invariant c.prev == Before(ticks, start, t)
      invariant t > 0 ==> c.current == map[]
    {
      c.current := ticks[t];
      var evs := c.EmitCollisionEvents();
      forall u | 0 <= u < t + 1
        ensures TickEvents((runs + [evs])[u], ticks[..t + 1][u], Before(ticks[..t + 1], start, u))
      {
        if u < t {
          assert (runs + [evs])[u] == runs[u] && ticks[..t + 1][u] == ticks[..t][u];
          assert Before(ticks[..t + 1], start, u) == Before(ticks[..t], start, u);
        }
      }
      runs := runs + [evs];
    }
    assert ticks[..|ticks|] == ticks;
  }
}
