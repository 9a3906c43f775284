/**
 * The harvest of GFS snapshots from NOAA: `getGribData`/`runQuery` walks
 * back 6 hours at a time from a starting instant until upstream answers 200,
 * giving up once the candidate is more than 30 whole days old;
 * `convertGribToJson` converts the download into the store and `run` then
 * goes on with the stamp 6 hours earlier if it is absent.
 *
 * Upstream replies and converter success are parameters: `upstream` gives
 * the reply to the request for a stamp, `converts` whether `grib2json`
 * succeeds on it. Every request of one walk is for an earlier bucket than
 * the one before, so a walk asks for each stamp at most once.
 */
module Harvester {
  import opened Wrappers
  import opened TimeGrid
  import opened SnapshotStore

  /** The harvest does not look further back than this many whole days before now. */
  const HorizonDays: int := 30

  /** `moment.utc().diff(target, 'days')`: whole days from `t` to `now`, truncated toward zero. */
  function DaysBefore(now: int, t: int): int
  {
    var hours := now - t;
    if hours >= 0 then hours / 24 else -((-hours) / 24)
  }

  /** The stop test of `runQuery`: at least 31 * 24 hours, that is more than 30 whole days, before now. */
  predicate BeyondHorizon(now: int, t: int)
  {
    now - t >= 24 * (HorizonDays + 1)
  }

  /** The stop test is the source's `diff(target, 'days') > 30` on whole days truncated toward zero. */
  lemma BeyondHorizonIsDaysDiff(now: int, t: int)
    ensures BeyondHorizon(now, t) <==> DaysBefore(now, t) > HorizonDays
  {
  }

  /** What the request for one stamp returns: a transport error or a response with its status. */
  datatype Reply = TransportError | Response(statusCode: int)

  predicate IsOk(reply: Reply)
  {
    reply.Response? && reply.statusCode == 200
  }

  /**
   * How a walk of `getGribData` ends: the horizon was hit and the promise is
   * never resolved; the first 200 was for a stamp already converted
   * (`{stamp: false}`); or the first 200 was downloaded (`{stamp, targetMoment}`).
   */
  datatype Fetch = Unresolved | AlreadyHave | Fetched(stamp: Stamp, at: int)

  /** A walk's outcome and the instants whose stamp was requested, in order. */
  datatype Walk = Walk(outcome: Fetch, probes: seq<int>)

  function Last(s: seq<int>): int
    requires |s| > 0
  {
    s[|s| - 1]
  }

  /**
   * `runQuery(t)`: past the horizon the walk ends; otherwise the stamp of `t`
   * is requested, an error or a status other than 200 moves on to `t - 6h`,
   * and a 200 ends the walk, with the download unless the stamp is already
   * in the store.
   */
  function HarvestWalk(keys: set<Stamp>, now: int, t: int, upstream: Stamp -> Reply): (w: Walk)
    ensures w.outcome.Fetched? ==> w.outcome.at <= t && !BeyondHorizon(now, w.outcome.at)
    decreases t - now + 24 * (HorizonDays + 1)
  {
    if BeyondHorizon(now, t) then Walk(Unresolved, [])
    else
      var stamp := StampOf(t);
      match upstream(stamp)
      case TransportError =>
        var rest := HarvestWalk(keys, now, t - 6, upstream);
        Walk(rest.outcome, [t] + rest.probes)
      case Response(code) =>
        if code != 200 then
          var rest := HarvestWalk(keys, now, t - 6, upstream);
          Walk(rest.outcome, [t] + rest.probes)
        else if stamp in keys then Walk(AlreadyHave, [t])
        else Walk(Fetched(stamp, t), [t])
  }

  /**
   * The walk requests `t`, `t - 6h`, ... in order and never a candidate
   * beyond the horizon; every request but the last got an error or a status
   * other than 200. It ends unresolved only once the next candidate is
   * beyond the horizon, and otherwise on a 200: "already have" exactly when
   * that stamp is in the store, and its download when it is not.
   */
  lemma {:induction false} WalkShape(keys: set<Stamp>, now: int, t: int, upstream: Stamp -> Reply)
    ensures var w := HarvestWalk(keys, now, t, upstream);
      && (forall i :: 0 <= i < |w.probes| ==> w.probes[i] == t - 6 * i && !BeyondHorizon(now, w.probes[i]))
      && (forall i :: 0 <= i < |w.probes| - 1 ==> !IsOk(upstream(StampOf(w.probes[i]))))
      && (w.outcome.Unresolved? ==>
            && BeyondHorizon(now, t - 6 * |w.probes|)
            && (|w.probes| == 0 || !IsOk(upstream(StampOf(Last(w.probes))))))
      && (!w.outcome.Unresolved? ==>
            && |w.probes| > 0
            && IsOk(upstream(StampOf(Last(w.probes))))
            && (w.outcome.AlreadyHave? <==> StampOf(Last(w.probes)) in keys))
      && (w.outcome.Fetched? ==> w.outcome == Fetched(StampOf(Last(w.probes)), Last(w.probes)))
    decreases t - now + 24 * (HorizonDays + 1)
  {
    if !BeyondHorizon(now, t) && !IsOk(upstream(StampOf(t))) {
      WalkShape(keys, now, t - 6, upstream);
      var w := HarvestWalk(keys, now, t, upstream);
      var rest := HarvestWalk(keys, now, t - 6, upstream);
      assert w.probes == [t] + rest.probes;
      forall i | 0 < i < |w.probes|
        ensures w.probes[i] == rest.probes[i - 1]
      {
      }
    }
  }

  /** One step of the walk: a reply other than 200 moves on 6 hours back, a 200 ends it. */
  lemma HarvestWalkStep(keys: set<Stamp>, now: int, t: int, upstream: Stamp -> Reply)
    requires !BeyondHorizon(now, t)
    ensures var w := HarvestWalk(keys, now, t, upstream);
      var rest := HarvestWalk(keys, now, t - 6, upstream);
      w == if !IsOk(upstream(StampOf(t))) then Walk(rest.outcome, [t] + rest.probes)
           else if StampOf(t) in keys then Walk(AlreadyHave, [t])
           else Walk(Fetched(StampOf(t), t), [t])
  {
  }

  /** A walk requests each stamp at most once: its candidates fall in distinct buckets. */
  lemma WalkStampsDistinct(keys: set<Stamp>, now: int, t: int, upstream: Stamp -> Reply, i: int, j: int)
    requires var w := HarvestWalk(keys, now, t, upstream); 0 <= i < j < |w.probes|
    ensures var w := HarvestWalk(keys, now, t, upstream); StampOf(w.probes[i]) != StampOf(w.probes[j])
  {
    WalkShape(keys, now, t, upstream);
    BucketStep(t, i);
    BucketStep(t, j);
    var w := HarvestWalk(keys, now, t, upstream);
    SameStampIffSameBucket(w.probes[i], w.probes[j]);
  }

  /**
   * The store after `run(start)` and the chain of backfills it starts: a
   * download that converts is added, and when the stamp 6 hours before it is
   * absent the harvest goes on from there. A walk that ends without a
   * download, or a conversion error, ends the chain.
   */
  function Harvest(keys: set<Stamp>, now: int, start: int, upstream: Stamp -> Reply, converts: Stamp -> bool): (r: set<Stamp>)
    ensures keys <= r
    decreases start - now + 24 * (HorizonDays + 1)
  {
    var w := HarvestWalk(keys, now, start, upstream);
    match w.outcome
    case Fetched(stamp, at) =>
      if !converts(stamp) then keys
      else
        var grown := keys + {stamp};
        if StampOf(at - 6) in grown then grown
        else Harvest(grown, now, at - 6, upstream, converts)
    case _ => keys
  }

  /**
   * A stamp is added only when it was absent, comes from an instant after
   * the horizon and no later than the start, had a 200 upstream and
   * converted.
   */
  lemma {:induction false} HarvestAddsOnlyConverted(keys: set<Stamp>, now: int, start: int, upstream: Stamp -> Reply, converts: Stamp -> bool, s: Stamp)
    requires s in Harvest(keys, now, start, upstream, converts) && s !in keys
    ensures exists t :: now - 24 * (HorizonDays + 1) < t <= start && StampOf(t) == s && IsOk(upstream(s)) && converts(s)
    decreases start - now + 24 * (HorizonDays + 1)
  {
    var w := HarvestWalk(keys, now, start, upstream);
    WalkShape(keys, now, start, upstream);
    var stamp, at := w.outcome.stamp, w.outcome.at;
    if s != stamp {
      HarvestAddsOnlyConverted(keys + {stamp}, now, at - 6, upstream, converts, s);
    } else {
      assert now - 24 * (HorizonDays + 1) < at <= start && StampOf(at) == s;
    }
  }

  /** One link of the chain: the walk from `start`, then the conversion and the backfill decision. */
  lemma HarvestStep(keys: set<Stamp>, now: int, start: int, upstream: Stamp -> Reply, converts: Stamp -> bool)
    ensures var w := HarvestWalk(keys, now, start, upstream);
      Harvest(keys, now, start, upstream, converts)
        == if !w.outcome.Fetched? || !converts(w.outcome.stamp) then keys
           else if StampOf(w.outcome.at - 6) in keys + {w.outcome.stamp} then keys + {w.outcome.stamp}
           else Harvest(keys + {w.outcome.stamp}, now, w.outcome.at - 6, upstream, converts)
  {
  }

  /** A download that converts is stored: the chain adds the stamp its first walk fetched. */
  lemma HarvestAddsFetched(keys: set<Stamp>, now: int, start: int, upstream: Stamp -> Reply, converts: Stamp -> bool)
    requires var w := HarvestWalk(keys, now, start, upstream); w.outcome.Fetched? && converts(w.outcome.stamp)
    ensures HarvestWalk(keys, now, start, upstream).outcome.stamp in Harvest(keys, now, start, upstream, converts)
  {
    HarvestStep(keys, now, start, upstream, converts);
  }

  /**
   * The backfill: after a download at `at` converts, the stamp 6 hours
   * earlier is stored too when it is within the horizon, gets a 200 upstream
   * and converts, whether it was already present or is fetched next.
   */
  lemma HarvestBackfills(keys: set<Stamp>, now: int, start: int, upstream: Stamp -> Reply, converts: Stamp -> bool)
    requires var w := HarvestWalk(keys, now, start, upstream); w.outcome.Fetched? && converts(w.outcome.stamp)
    requires var at := HarvestWalk(keys, now, start, upstream).outcome.at;
      !BeyondHorizon(now, at - 6) && IsOk(upstream(StampOf(at - 6))) && converts(StampOf(at - 6))
    ensures StampOf(HarvestWalk(keys, now, start, upstream).outcome.at - 6) in Harvest(keys, now, start, upstream, converts)
  {
    var w := HarvestWalk(keys, now, start, upstream);
    var grown := keys + {w.outcome.stamp};
    HarvestStep(keys, now, start, upstream, converts);
    if StampOf(w.outcome.at - 6) !in grown {
      HarvestWalkStep(grown, now, w.outcome.at - 6, upstream);
      HarvestAddsFetched(grown, now, w.outcome.at - 6, upstream, converts);
    }
  }

  /** A larger store changes a walk only by turning its download into "already have". */
  lemma {:induction false} WalkMonotone(k0: set<Stamp>, k1: set<Stamp>, now: int, t: int, upstream: Stamp -> Reply)
    requires k0 <= k1
    ensures var w0, w1 := HarvestWalk(k0, now, t, upstream), HarvestWalk(k1, now, t, upstream);
      && w1.probes == w0.probes
      && (w0.outcome.Unresolved? ==> w1.outcome.Unresolved?)
      && (w0.outcome.AlreadyHave? ==> w1.outcome.AlreadyHave?)
      && (w0.outcome.Fetched? ==> w1.outcome == if w0.outcome.stamp in k1 then AlreadyHave else w0.outcome)
    decreases t - now + 24 * (HorizonDays + 1)
  {
    if !BeyondHorizon(now, t) && !IsOk(upstream(StampOf(t))) {
      WalkMonotone(k0, k1, now, t - 6, upstream);
    }
  }

  /** Harvesting again with nothing new upstream adds nothing: the first download found is already stored. */
  lemma HarvestIdempotent(keys: set<Stamp>, now: int, start: int, upstream: Stamp -> Reply, converts: Stamp -> bool)
    ensures var once := Harvest(keys, now, start, upstream, converts);
      Harvest(once, now, start, upstream, converts) == once
  {
    var once := Harvest(keys, now, start, upstream, converts);
    WalkMonotone(keys, once, now, start, upstream);
  }

  /**
   * `getGribData(start)`: the `runQuery` recursion as a loop over the
   * candidate instant. The store is only read.
   */
  method GetGribData(store: JsonStore, now: int, start: int, upstream: Stamp -> Reply)
    returns (outcome: Fetch, probes: seq<int>)
    ensures Walk(outcome, probes) == HarvestWalk(store.keys, now, start, upstream)
  {
    var target := start;
    probes := [];
    while true
      invariant var w := HarvestWalk(store.keys, now, target, upstream);
        HarvestWalk(store.keys, now, start, upstream) == Walk(w.outcome, probes + w.probes)
      decreases target - now + 24 * (HorizonDays + 1)
    {
      if BeyondHorizon(now, target) {
        return Unresolved, probes;
      }
      var stamp := StampOf(target);
      HarvestWalkStep(store.keys, now, target, upstream);
      ghost var rest := HarvestWalk(store.keys, now, target - 6, upstream);
      AppendAssoc(probes, [target], rest.probes);
      probes := probes + [target];
      var reply := upstream(stamp);
      if !IsOk(reply) {
        target := target - 6;
      } else if store.Has(stamp) {
        return AlreadyHave, probes;
      } else {
        return Fetched(stamp, target), probes;
      }
    }
  }

  /**
   * The completion of `convertGribToJson(stamp, at)`: on a conversion error
   * nothing changes and the chain ends; otherwise the stamp is written and
   * the instant 6 hours earlier is returned for the next `run` when its
   * stamp is absent.
   */
  method ConvertGribToJson(store: JsonStore, stamp: Stamp, at: int, converts: Stamp -> bool) returns (next: Option<int>)
    modifies store
    ensures store.keys == if converts(stamp) then old(store.keys) + {stamp} else old(store.keys)
    ensures next.Some? <==> converts(stamp) && StampOf(at - 6) !in old(store.keys) + {stamp}
    ensures next.Some? ==> next.value == at - 6
  {
    if !converts(stamp) {
      return None;
    }
    store.Write(stamp);
    var previous := at - 6;
    if !store.Has(StampOf(previous)) {
      return Some(previous);
    }
    return None;
  }

  /**
   * `run(start)` with the backfills it chains through `convertGribToJson`.
   * The store only grows, and ends as `Harvest` specifies.
   */
  method Run(store: JsonStore, now: int, start: int, upstream: Stamp -> Reply, converts: Stamp -> bool)
    modifies store
    ensures store.keys == Harvest(old(store.keys), now, start, upstream, converts)
    ensures old(store.keys) <= store.keys
  {
    var target := start;
    ghost var goal := Harvest(store.keys, now, start, upstream, converts);
    while true
      invariant Harvest(store.keys, now, target, upstream, converts) == goal
      decreases target - now + 24 * (HorizonDays + 1)
    {
      ghost var before := store.keys;
      HarvestStep(before, now, target, upstream, converts);
      var outcome, probes := GetGribData(store, now, target, upstream);
      if !outcome.Fetched? {
        return;
      }
      WalkShape(before, now, target, upstream);
      assert outcome.at == probes[|probes| - 1] == target - 6 * (|probes| - 1);
      var next := ConvertGribToJson(store, outcome.stamp, outcome.at, converts);
      if next.None? {
        return;
      }
      target := next.value;
    }
  }
}
