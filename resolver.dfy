/**
 * The two read-only queries of the server: `/wind/latest`, which walks back
 * from now one 6-hour step at a time until a stamp's JSON exists, and
 * `/wind/nearest`, which searches back from the requested time within
 * `searchLimit` days and then switches to a forward phase.
 */
module Resolver {
  import opened Wrappers
  import opened TimeGrid
  import opened SnapshotStore

  // ----- /wind/latest -----

  /**
   * `sendLatest`: checks the buckets of now, now - 6h, now - 12h, ... in that
   * order and answers with the first stamp present. `probes` lists the
   * instants looked up. The source has no bound, so a stamp at or before
   * now must exist for the walk to end.
   */
  method SendLatest(store: JsonStore, now: int) returns (stamp: Stamp, probes: seq<int>)
    requires exists t :: t <= now && StampOf(t) in store.keys
    ensures 0 < |probes|
    ensures forall i :: 0 <= i < |probes| ==> probes[i] == now - 6 * i
    ensures forall i :: 0 <= i < |probes| - 1 ==> StampOf(probes[i]) !in store.keys
    ensures stamp == StampOf(probes[|probes| - 1]) && stamp in store.keys
    ensures forall t :: t <= now && StampOf(t) in store.keys ==> Bucket(t) <= Bucket(probes[|probes| - 1])
  {
    ghost var w :| w <= now && StampOf(w) in store.keys;
    forall t | t <= now
      ensures Bucket(t) <= Bucket(now)
    {
      BucketMonotone(t, now);
    }
    var target := now;
    probes := [];
    while true
      invariant target == now - 6 * |probes|
      invariant forall i :: 0 <= i < |probes| ==> probes[i] == now - 6 * i
      invariant forall i :: 0 <= i < |probes| ==> StampOf(probes[i]) !in store.keys
      invariant forall t :: t <= now && StampOf(t) in store.keys ==> Bucket(t) <= Bucket(target)
      decreases Bucket(target) - Bucket(w)
    {
      var s := StampOf(target);
      probes := probes + [target];
      if store.Has(s) {
        return s, probes;
      }
      BucketParts(target);
      forall t | t <= now && StampOf(t) in store.keys
        ensures Bucket(t) <= Bucket(target - Cadence)
      {
        if Bucket(t) == Bucket(target) {
          SameStampIffSameBucket(t, target);
        }
      }
      target := target - Cadence;
    }
  }

  // ----- /wind/nearest -----

  datatype NearestError = InvalidTimeIso | NoDataWithinSearchLimit

  /** Outcome of a nearest query, with the instants whose stamp was looked up, in order. */
  datatype Search = Search(result: Result<Stamp, NearestError>, probes: seq<int>)

  function Abs(x: int): int
  {
    if x < 0 then -x else x
  }

  /** `parseInt(searchLimit) || 1`: a missing, non-numeric (`None`) or zero limit becomes 1. */
  function EffectiveLimit(searchLimit: Option<int>): (limit: int)
    ensures limit != 0
    ensures searchLimit.None? || searchLimit.value == 0 ==> limit == 1
    ensures searchLimit.Some? && searchLimit.value != 0 ==> limit == searchLimit.value
  {
    if searchLimit.None? || searchLimit.value == 0 then 1 else searchLimit.value
  }

  /**
   * The `n` instants a phase of the nearest walk can look up from `from`
   * on, 6 hours apart: later and later when `forwards`, earlier otherwise.
   */
  function Candidates(from: int, forwards: bool, n: nat): (c: seq<int>)
    ensures |c| == n
    ensures forall i :: 0 <= i < n ==> c[i] == if forwards then from + 6 * i else from - 6 * i
  {
    seq(n, i => if forwards then from + 6 * i else from - 6 * i)
  }

  lemma CandidatesTail(from: int, forwards: bool, n: nat)
    requires n > 0
    ensures Candidates(from, forwards, n)[0] == from
    ensures Candidates(from, forwards, n)[1..] == Candidates(if forwards then from + 6 else from - 6, forwards, n - 1)
  {
  }

  /** Index of the first candidate whose stamp is present, or `|c|` when there is none. */
  function FirstPresent(keys: set<Stamp>, c: seq<int>): (j: nat)
    ensures j <= |c|
    ensures forall i :: 0 <= i < j ==> StampOf(c[i]) !in keys
    ensures j < |c| ==> StampOf(c[j]) in keys
  {
    if |c| == 0 then 0
    else if StampOf(c[0]) in keys then 0
    else 1 + FirstPresent(keys, c[1..])
  }

  /** Where the code restarts the forward phase: `moment.utc(time).add(limit * 24, 'hours')`. */
  function AsWrittenRestart(time: int, limit: int): int
  {
    time + limit * 24
  }

  /** Where the comment beside that call says the forward phase starts: the requested time. */
  function IntendedRestart(time: int, limit: int): int
  {
    time
  }

  /**
   * `sendNearestTo(target)` with the flag `searchForwards`: a target at least
   * `24 * limit` hours from the requested time switches the backward phase
   * to a forward phase starting at `restart`, or ends the forward phase with
   * an error; otherwise the target's stamp is looked up and the walk steps 6
   * hours back (or forward).
   */
  function NearestWalk(keys: set<Stamp>, time: int, limit: int, restart: int, forwards: bool, target: int): Search
    requires limit != 0
    decreases !forwards, if forwards then time + 24 * limit - target else target - time + 24 * limit
  {
    var hoursDiff := Abs(time - target);
    if limit != 0 && hoursDiff >= limit * 24 then
      if !forwards then NearestWalk(keys, time, limit, restart, true, restart)
      else Search(Failure(NoDataWithinSearchLimit), [])
    else
      var stamp := StampOf(target);
      if stamp in keys then Search(Success(stamp), [target])
      else
        var rest := NearestWalk(keys, time, limit, restart, forwards, if forwards then target + Cadence else target - Cadence);
        Search(rest.result, [target] + rest.probes)
  }

  /** The `/wind/nearest` handler as written: a missing or invalid time fails at once, otherwise the walk starts at the time. */
  function Nearest(keys: set<Stamp>, time: Option<int>, searchLimit: Option<int>): (s: Search)
    ensures time.None? ==> s == Search(Failure(InvalidTimeIso), [])
  {
    if time.None? then Search(Failure(InvalidTimeIso), [])
    else
      var limit := EffectiveLimit(searchLimit);
      NearestWalk(keys, time.value, limit, AsWrittenRestart(time.value, limit), false, time.value)
  }

  /** The handler with the forward phase starting at the requested time. */
  function NearestIntended(keys: set<Stamp>, time: Option<int>, searchLimit: Option<int>): (s: Search)
    ensures time.None? ==> s == Search(Failure(InvalidTimeIso), [])
  {
    if time.None? then Search(Failure(InvalidTimeIso), [])
    else
      var limit := EffectiveLimit(searchLimit);
      NearestWalk(keys, time.value, limit, IntendedRestart(time.value, limit), false, time.value)
  }

  /**
   * What a phase answers when it looks up the candidates `c` in order: the
   * first stamp present, or else what comes `otherwise`, after all of `c`.
   */
  function PhaseAnswer(keys: set<Stamp>, c: seq<int>, otherwise: Search): Search
  {
    var j := FirstPresent(keys, c);
    if j < |c| then Search(Success(StampOf(c[j])), c[..j + 1]) else Search(otherwise.result, c + otherwise.probes)
  }

  lemma PhaseAnswerStep(keys: set<Stamp>, c: seq<int>, otherwise: Search)
    requires |c| > 0
    ensures PhaseAnswer(keys, c, otherwise)
      == if StampOf(c[0]) in keys then Search(Success(StampOf(c[0])), [c[0]])
         else var r := PhaseAnswer(keys, c[1..], otherwise); Search(r.result, [c[0]] + r.probes)
  {
    if StampOf(c[0]) !in keys {
      var j' := FirstPresent(keys, c[1..]);
      if j' < |c| - 1 {
        assert [c[0]] + c[1..][..j' + 1] == c[..j' + 2];
      } else {
        assert [c[0]] + (c[1..] + otherwise.probes) == c + otherwise.probes;
      }
    }
  }

  /** A walk that looks up the first candidate and, when it is absent, goes on as the phase over the rest, answers as the phase over all of them. */
  lemma PhaseAnswerCons(keys: set<Stamp>, c: seq<int>, otherwise: Search, here: Search, next: Search)
    requires |c| > 0
    requires here == if StampOf(c[0]) in keys then Search(Success(StampOf(c[0])), [c[0]]) else Search(next.result, [c[0]] + next.probes)
    requires StampOf(c[0]) !in keys ==> next == PhaseAnswer(keys, c[1..], otherwise)
    ensures here == PhaseAnswer(keys, c, otherwise)
  {
    PhaseAnswerStep(keys, c, otherwise);
  }

  /** Within the limit, the walk looks up the target and answers with it when present, or steps on. */
  lemma WalkStep(keys: set<Stamp>, time: int, limit: int, restart: int, forwards: bool, target: int)
    requires limit != 0 && Abs(time - target) < limit * 24
    ensures NearestWalk(keys, time, limit, restart, forwards, target)
      == if StampOf(target) in keys then Search(Success(StampOf(target)), [target])
         else var rest := NearestWalk(keys, time, limit, restart, forwards, if forwards then target + 6 else target - 6);
           Search(rest.result, [target] + rest.probes)
  {
  }

  /** One forward step: a present stamp at `time + 6k` is the answer; an absent one prefixes the rest of the walk with it. */
  lemma ForwardStep(keys: set<Stamp>, time: int, limit: int, restart: int, k: nat)
    requires limit >= 1 && k < 4 * limit
    requires StampOf(time + 6 * k) !in keys ==>
      NearestWalk(keys, time, limit, restart, true, time + 6 * (k + 1))
        == PhaseAnswer(keys, Candidates(time + 6 * (k + 1), true, 4 * limit - (k + 1)), Search(Failure(NoDataWithinSearchLimit), []))
    ensures NearestWalk(keys, time, limit, restart, true, time + 6 * k)
      == PhaseAnswer(keys, Candidates(time + 6 * k, true, 4 * limit - k), Search(Failure(NoDataWithinSearchLimit), []))
  {
    var target := time + 6 * k;
    assert Abs(time - target) < limit * 24 && time + 6 * (k + 1) == target + 6;
    WalkStep(keys, time, limit, restart, true, target);
    CandidatesTail(target, true, 4 * limit - k);
    PhaseAnswerCons(keys, Candidates(target, true, 4 * limit - k), Search(Failure(NoDataWithinSearchLimit), []),
      NearestWalk(keys, time, limit, restart, true, target), NearestWalk(keys, time, limit, restart, true, target + 6));
  }

  /** One backward step: a present stamp at `time - 6k` is the answer; an absent one prefixes the rest of the walk with it. */
  lemma BackwardStep(keys: set<Stamp>, time: int, limit: int, restart: int, k: nat)
    requires limit >= 1 && k < 4 * limit
    requires StampOf(time - 6 * k) !in keys ==>
      NearestWalk(keys, time, limit, restart, false, time - 6 * (k + 1))
        == PhaseAnswer(keys, Candidates(time - 6 * (k + 1), false, 4 * limit - (k + 1)), NearestWalk(keys, time, limit, restart, true, restart))
    ensures NearestWalk(keys, time, limit, restart, false, time - 6 * k)
      == PhaseAnswer(keys, Candidates(time - 6 * k, false, 4 * limit - k), NearestWalk(keys, time, limit, restart, true, restart))
  {
    var target := time - 6 * k;
    assert Abs(time - target) < limit * 24 && time - 6 * (k + 1) == target - 6;
    WalkStep(keys, time, limit, restart, false, target);
    CandidatesTail(target, false, 4 * limit - k);
    PhaseAnswerCons(keys, Candidates(target, false, 4 * limit - k), NearestWalk(keys, time, limit, restart, true, restart),
      NearestWalk(keys, time, limit, restart, false, target), NearestWalk(keys, time, limit, restart, false, target - 6));
  }

  /** Past the last backward candidate the walk is the forward phase from `restart`. */
  lemma BackwardExhausted(keys: set<Stamp>, time: int, limit: int, restart: int, k: nat)
    requires limit >= 1 && k == 4 * limit
    ensures NearestWalk(keys, time, limit, restart, false, time - 6 * k)
      == PhaseAnswer(keys, Candidates(time - 6 * k, false, 4 * limit - k), NearestWalk(keys, time, limit, restart, true, restart))
  {
    var f := NearestWalk(keys, time, limit, restart, true, restart);
    assert Abs(time - (time - 6 * k)) >= limit * 24;
    assert Candidates(time - 6 * k, false, 4 * limit - k) + f.probes == f.probes;
  }

  /** Past the last forward candidate the walk fails. */
  lemma ForwardExhausted(keys: set<Stamp>, time: int, limit: int, restart: int, k: nat)
    requires limit >= 1 && k == 4 * limit
    ensures NearestWalk(keys, time, limit, restart, true, time + 6 * k)
      == PhaseAnswer(keys, Candidates(time + 6 * k, true, 4 * limit - k), Search(Failure(NoDataWithinSearchLimit), []))
  {
    assert Abs(time - (time + 6 * k)) >= limit * 24;
    assert Candidates(time + 6 * k, true, 4 * limit - k) + [] == [];
  }

  /**
   * From the `k`-th forward candidate on, the walk looks up `time + 6k`,
   * `time + 6(k+1)`, ... up to `4 * limit` candidates, answers with the
   * first stamp present and fails when there is none.
   */
  lemma {:induction false} ForwardPhase(keys: set<Stamp>, time: int, limit: int, restart: int, k: nat)
    requires limit >= 1 && k <= 4 * limit
    ensures NearestWalk(keys, time, limit, restart, true, time + 6 * k)
      == PhaseAnswer(keys, Candidates(time + 6 * k, true, 4 * limit - k), Search(Failure(NoDataWithinSearchLimit), []))
    decreases 4 * limit - k
  {
    var target := time + 6 * k;
    if k == 4 * limit {
      ForwardExhausted(keys, time, limit, restart, k);
    } else {
      if StampOf(target) !in keys {
        ForwardPhase(keys, time, limit, restart, k + 1);
      }
      ForwardStep(keys, time, limit, restart, k);
    }
  }

  /**
   * From the `k`-th backward candidate on, the walk looks up `time - 6k`,
   * `time - 6(k+1)`, ... up to `4 * limit` candidates and answers with the
   * first stamp present; when there is none it goes on with the forward
   * phase from `restart`.
   */
  lemma {:induction false} BackwardPhase(keys: set<Stamp>, time: int, limit: int, restart: int, k: nat)
    requires limit >= 1 && k <= 4 * limit
    ensures NearestWalk(keys, time, limit, restart, false, time - 6 * k)
      == PhaseAnswer(keys, Candidates(time - 6 * k, false, 4 * limit - k), NearestWalk(keys, time, limit, restart, true, restart))
    decreases 4 * limit - k
  {
    var target := time - 6 * k;
    if k == 4 * limit {
      BackwardExhausted(keys, time, limit, restart, k);
    } else {
      if StampOf(target) !in keys {
        BackwardPhase(keys, time, limit, restart, k + 1);
      }
      BackwardStep(keys, time, limit, restart, k);
    }
  }

  /** As written, the forward phase starts where the exhaustion test already holds: it fails and looks nothing up. */
  lemma ForwardPhaseChecksNothing(keys: set<Stamp>, time: int, limit: int)
    requires limit != 0
    ensures NearestWalk(keys, time, limit, AsWrittenRestart(time, limit), true, AsWrittenRestart(time, limit))
      == Search(Failure(NoDataWithinSearchLimit), [])
  {
  }

  /**
   * The `/wind/nearest` answer as written. A limit of at least one looks up
   * the `4 * limit` instants `time`, `time - 6h`, ... in that order and
   * answers with the first stamp present, or fails with "No data within
   * searchLimit" after all of them; a negative limit fails without a lookup.
   */
  lemma NearestAsWritten(keys: set<Stamp>, time: int, searchLimit: Option<int>)
    ensures var limit := EffectiveLimit(searchLimit);
      var c := Candidates(time, false, if limit >= 1 then 4 * limit else 0);
      var j := FirstPresent(keys, c);
      Nearest(keys, Some(time), searchLimit)
        == if j < |c| then Search(Success(StampOf(c[j])), c[..j + 1]) else Search(Failure(NoDataWithinSearchLimit), c)
  {
    var limit := EffectiveLimit(searchLimit);
    var restart := AsWrittenRestart(time, limit);
    var none := Search(Failure(NoDataWithinSearchLimit), []);
    assert NearestWalk(keys, time, limit, restart, true, restart) == none by {
      ForwardPhaseChecksNothing(keys, time, limit);
    }
    if limit >= 1 {
      var c := Candidates(time, false, 4 * limit);
      assert NearestWalk(keys, time, limit, restart, false, time) == PhaseAnswer(keys, c, none) by {
        BackwardPhase(keys, time, limit, restart, 0);
        assert time - 6 * 0 == time && 4 * limit - 0 == 4 * limit;
      }
      assert c + [] == c;
    }
  }

  /**
   * Consequences: no bucket later than the requested time's is looked up or
   * answered, and an answer is a present stamp fewer than `4 * limit`
   * buckets back.
   */
  lemma NearestNeverLater(keys: set<Stamp>, time: int, searchLimit: Option<int>)
    ensures var s := Nearest(keys, Some(time), searchLimit);
      && (forall i :: 0 <= i < |s.probes| ==> s.probes[i] <= time)
      && (s.result.Success? ==>
            && |s.probes| > 0
            && var last := s.probes[|s.probes| - 1];
            && s.result.value == StampOf(last) && s.result.value in keys
            && Bucket(time) - 4 * EffectiveLimit(searchLimit) < Bucket(last) <= Bucket(time))
  {
    NearestAsWritten(keys, time, searchLimit);
    var s := Nearest(keys, Some(time), searchLimit);
    if s.result.Success? {
      BucketStep(time, |s.probes| - 1);
    }
  }

  /** Among the buckets searched, the answer is the latest one that has a stamp. */
  lemma NearestIsLatestInWindow(keys: set<Stamp>, time: int, searchLimit: Option<int>, t: int)
    requires EffectiveLimit(searchLimit) >= 1
    requires Bucket(time) - 4 * EffectiveLimit(searchLimit) < Bucket(t) <= Bucket(time) && StampOf(t) in keys
    ensures var s := Nearest(keys, Some(time), searchLimit);
      s.result.Success? && Bucket(t) <= Bucket(s.probes[|s.probes| - 1])
  {
    NearestAsWritten(keys, time, searchLimit);
    var limit := EffectiveLimit(searchLimit);
    var c := Candidates(time, false, 4 * limit);
    var j0 := Bucket(time) - Bucket(t);
    BucketStep(time, j0);
    SameStampIffSameBucket(t, c[j0]);
    var j := FirstPresent(keys, c);
    BucketStep(time, j);
  }

  /** Finding: a stamp 6 hours after the requested time is within a limit of one day, yet the code as written fails. */
  lemma AsWrittenMissesLaterStamp(time: int)
    ensures var keys := {StampOf(time + 6)};
      && Nearest(keys, Some(time), Some(1)).result == Failure(NoDataWithinSearchLimit)
      && NearestIntended(keys, Some(time), Some(1)).result == Success(StampOf(time + 6))
  {
    var keys := {StampOf(time + 6)};
    BucketStep(time + 6, 1);
    assert Nearest(keys, Some(time), Some(1)).result == Failure(NoDataWithinSearchLimit) by {
      NearestAsWritten(keys, time, Some(1));
      var c := Candidates(time, false, 4);
      forall i | 0 <= i < 4
        ensures StampOf(c[i]) !in keys
      {
        BucketStep(time, i);
        SameStampIffSameBucket(c[i], time + 6);
      }
    }
    IntendedFindsWithinLimit(keys, time, Some(1), time + 6);
  }

  /**
   * The answer with the forward phase starting at the requested time: the
   * first stamp present among `time`, `time - 6h`, ... (`4 * limit` of them),
   * else the first among `time`, `time + 6h`, ... (as many), else "No data
   * within searchLimit".
   */
  lemma NearestIntendedAnswer(keys: set<Stamp>, time: int, searchLimit: Option<int>)
    requires EffectiveLimit(searchLimit) >= 1
    ensures var limit := EffectiveLimit(searchLimit);
      NearestIntended(keys, Some(time), searchLimit)
        == PhaseAnswer(keys, Candidates(time, false, 4 * limit),
             PhaseAnswer(keys, Candidates(time, true, 4 * limit), Search(Failure(NoDataWithinSearchLimit), [])))
  {
    var limit := EffectiveLimit(searchLimit);
    var forward := NearestWalk(keys, time, limit, time, true, time);
    var none := Search(Failure(NoDataWithinSearchLimit), []);
    assert forward == PhaseAnswer(keys, Candidates(time, true, 4 * limit), none) by {
      ForwardPhase(keys, time, limit, time, 0);
      assert time + 6 * 0 == time && 4 * limit - 0 == 4 * limit;
    }
    assert NearestWalk(keys, time, limit, time, false, time) == PhaseAnswer(keys, Candidates(time, false, 4 * limit), forward) by {
      BackwardPhase(keys, time, limit, time, 0);
      assert time - 6 * 0 == time && 4 * limit - 0 == 4 * limit;
    }
  }

  /**
   * With the forward phase starting at the requested time, a stamp in any
   * bucket fewer than `4 * limit` buckets before or after the requested
   * time's is found: the search covers the limit on both sides.
   */
  lemma IntendedFindsWithinLimit(keys: set<Stamp>, time: int, searchLimit: Option<int>, t: int)
    requires EffectiveLimit(searchLimit) >= 1
    requires Bucket(time) - 4 * EffectiveLimit(searchLimit) < Bucket(t) < Bucket(time) + 4 * EffectiveLimit(searchLimit)
    requires StampOf(t) in keys
    ensures var s := NearestIntended(keys, Some(time), searchLimit);
      && s.result.Success? && |s.probes| > 0 && s.result.value == StampOf(s.probes[|s.probes| - 1]) && s.result.value in keys
      && Bucket(time) - 4 * EffectiveLimit(searchLimit) < Bucket(s.probes[|s.probes| - 1]) < Bucket(time) + 4 * EffectiveLimit(searchLimit)
  {
    var limit := EffectiveLimit(searchLimit);
    NearestIntendedAnswer(keys, time, searchLimit);
    var s := NearestIntended(keys, Some(time), searchLimit);
    var cb := Candidates(time, false, 4 * limit);
    var cf := Candidates(time, true, 4 * limit);
    var jb := FirstPresent(keys, cb);
    if jb < |cb| {
      assert s == Search(Success(StampOf(cb[jb])), cb[..jb + 1]);
      BucketStep(time, jb);
    } else {
      var j0 := Bucket(t) - Bucket(time);
      if j0 <= 0 {
        BucketStep(time, -j0);
        SameStampIffSameBucket(t, cb[-j0]);
        assert false;
      }
      BucketStep(time, -j0);
      assert cf[j0] == time - 6 * -j0;
      SameStampIffSameBucket(t, cf[j0]);
      var jf := FirstPresent(keys, cf);
      assert s == Search(Success(StampOf(cf[jf])), cb + cf[..jf + 1]);
      assert s.probes[|s.probes| - 1] == cf[jf] == time - 6 * -(jf as int);
      BucketStep(time, -(jf as int));
    }
  }

  /**
   * `sendNearestTo` as the handler runs it: a loop over the target with the
   * mutable `searchForwards` flag, answering what `Nearest` specifies.
   */
  method SendNearest(store: JsonStore, time: Option<int>, searchLimit: Option<int>)
    returns (result: Result<Stamp, NearestError>, probes: seq<int>)
    ensures Search(result, probes) == Nearest(store.keys, time, searchLimit)
  {
    if time.None? {
      return Failure(InvalidTimeIso), [];
    }
    var requested := time.value;
    var limit := EffectiveLimit(searchLimit);
    var searchForwards := false;
    var target := requested;
    probes := [];
    ghost var restart := AsWrittenRestart(requested, limit);
    ghost var goal := NearestWalk(store.keys, requested, limit, restart, false, requested);
    while true
      invariant NearestWalk(store.keys, requested, limit, restart, searchForwards, target).result == goal.result
      invariant probes + NearestWalk(store.keys, requested, limit, restart, searchForwards, target).probes == goal.probes
      decreases !searchForwards, if searchForwards then requested + 24 * limit - target else target - requested + 24 * limit
    {
      var hoursDiff := Abs(requested - target);
      if limit != 0 && hoursDiff >= limit * 24 {
        if !searchForwards {
          searchForwards := true;
          target := requested + limit * 24;
        } else {
          return Failure(NoDataWithinSearchLimit), probes;
        }
      } else {
        var stamp := StampOf(target);
        ghost var rest := NearestWalk(store.keys, requested, limit, restart, searchForwards, if searchForwards then target + Cadence else target - Cadence);
        AppendAssoc(probes, [target], rest.probes);
        probes := probes + [target];
        if store.Has(stamp) {
          return Success(stamp), probes;
        }
        target := if searchForwards then target + Cadence else target - Cadence;
      }
    }
  }
}
