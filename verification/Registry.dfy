/**
 The castex doctor's registry mutation log: each run compares the registry
 file with the state saved by the run before, and appends what changed.
 */
module Registry {
  import opened Text

  /** The persisted state; an empty hash stands for "never saved". */
  datatype State = State(sha256: string, agentIds: seq<string>)

  const NO_STATE := State("", [])

  datatype Event =
    | Added(agentId: string, archetype: string, sha256: string)
    | Removed(agentId: string, sha256: string)
    | Updated(agentCount: nat, sha256: string)

  /** What one run reads from the registry file: its hash, and its agents with their archetypes in map order. */
  datatype Reading = Reading(sha256: string, ids: seq<string>, archetypeOf: map<string, string>)

  ghost predicate NoRepeats<T>(s: seq<T>) {
    forall i, k :: 0 <= i < k < |s| ==> s[i] != s[k]
  }

  /** The loader keys agents by id, so no id is listed twice; a hash is never empty. */
  ghost predicate IsReading(r: Reading) {
    && r.sha256 != ""
    && NoRepeats(r.ids)
    && (forall id :: id in r.ids <==> id in r.archetypeOf)
  }

  ghost predicate IsChange(e: Event, prev: seq<string>, curr: seq<string>, sha: string,
      archetypeOf: map<string, string>) {
    match e
    case Added(id, archetype, s) =>
      id in curr && id !in prev && s == sha && archetype == if id in archetypeOf then archetypeOf[id] else ""
    case Removed(id, s) => id in prev && id !in curr && s == sha
    case Updated(_, _) => false
  }

  function AddedId(e: Event): set<string> {
    if e.Added? then {e.agentId} else {}
  }

  function RemovedId(e: Event): set<string> {
    if e.Removed? then {e.agentId} else {}
  }

  /** The ids added and removed by a list of events. */
  function AddedIds(events: seq<Event>): set<string> {
    set e | e in events && e.Added? :: e.agentId
  }

  function RemovedIds(events: seq<Event>): set<string> {
    set e | e in events && e.Removed? :: e.agentId
  }

  method IdSet(ids: seq<string>) returns (s: set<string>)
    ensures s == Elements(ids)
  {
    s := {};
    for i := 0 to |ids|
      invariant s == Elements(ids[..i])
    {
      s := s + {ids[i]};
    }
    assert ids[..|ids|] == ids;
  }

  /**
   The events name exactly the ids that came and went, additions first; when
   there are none, a single "updated" event takes their place.
   */
  method DiffRegistryAgents(prevIds: seq<string>, currIds: seq<string>, sha: string, archetypeOf: map<string, string>)
    returns (events: seq<Event>)
    ensures AddedIds(events) == Elements(currIds) - Elements(prevIds)
    ensures RemovedIds(events) == Elements(prevIds) - Elements(currIds)
    ensures if Elements(prevIds) == Elements(currIds) then events == [Updated(|currIds|, sha)]
            else forall e :: e in events ==> IsChange(e, prevIds, currIds, sha, archetypeOf)
    ensures forall i, k :: 0 <= i < k < |events| && events[k].Added? ==> events[i].Added?
    ensures NoRepeats(prevIds) && NoRepeats(currIds) ==> NoRepeats(events)
  {
    var prevSet := IdSet(prevIds);
    var currSet := IdSet(currIds);
    events := [];
    for i := 0 to |currIds|
      invariant AddedIds(events) == Elements(currIds[..i]) - prevSet && RemovedIds(events) == {}
      invariant forall k :: 0 <= k < |events| ==>
        events[k].Added? && IsChange(events[k], prevIds, currIds, sha, archetypeOf)
      invariant NoRepeats(currIds) ==> NoRepeats(events)
    {
      var id := currIds[i];
      NewId(currIds, i);
      if id !in prevSet {
        assert NoRepeats(currIds) ==> id !in AddedIds(events);
        OneMoreEvent(events, Added(id, if id in archetypeOf then archetypeOf[id] else "", sha));
        events := events + [Added(id, if id in archetypeOf then archetypeOf[id] else "", sha)];
      }
      assert Elements(currIds[..i + 1]) == Elements(currIds[..i]) + {id};
    }
    ghost var added := events;
    for i := 0 to |prevIds|
      invariant added <= events
      invariant AddedIds(events) == Elements(currIds) - prevSet
      invariant RemovedIds(events) == Elements(prevIds[..i]) - currSet
      invariant forall k :: 0 <= k < |events| ==>
        events[k].Added? == (k < |added|) && IsChange(events[k], prevIds, currIds, sha, archetypeOf)
      invariant NoRepeats(prevIds) && NoRepeats(currIds) ==> NoRepeats(events)
    {
      var id := prevIds[i];
      NewId(prevIds, i);
      if id !in currSet {
        assert NoRepeats(prevIds) ==> id !in RemovedIds(events);
        OneMoreEvent(events, Removed(id, sha));
        events := events + [Removed(id, sha)];
      }
      assert Elements(prevIds[..i + 1]) == Elements(prevIds[..i]) + {id};
    }
    NoEventsIff(events, prevIds, currIds, sha, archetypeOf);
    if |events| == 0 {
      OneMoreEvent(events, Updated(|currIds|, sha));
      events := events + [Updated(|currIds|, sha)];
    }
  }

  lemma NewId(ids: seq<string>, i: nat)
    requires i < |ids|
    ensures NoRepeats(ids) ==> ids[i] !in Elements(ids[..i])
  {
  }

  lemma OneMoreEvent(events: seq<Event>, e: Event)
    ensures AddedIds(events + [e]) == AddedIds(events) + AddedId(e)
    ensures RemovedIds(events + [e]) == RemovedIds(events) + RemovedId(e)
  {
    assert forall x :: x in events + [e] <==> x in events || x == e;
  }

  lemma NoEventsIff(events: seq<Event>, prev: seq<string>, curr: seq<string>, sha: string,
      archetypeOf: map<string, string>)
    requires AddedIds(events) == Elements(curr) - Elements(prev) &&
             RemovedIds(events) == Elements(prev) - Elements(curr)
    requires forall k :: 0 <= k < |events| ==> IsChange(events[k], prev, curr, sha, archetypeOf)
    ensures events == [] <==> Elements(prev) == Elements(curr)
  {
    if events == [] {
      var p, c := Elements(prev), Elements(curr);
      assert p - c == {} && c - p == {};
      assert p == (p - c) + p * c && c == (c - p) + c * p && p * c == c * p;
    } else {
      var e := events[0];
      assert (e.agentId in Elements(prev)) != (e.agentId in Elements(curr));
    }
  }

  // -------------------------------------------------------------------- runs

  /** The files a doctor run reads and writes: the saved state and the event log. */
  class DoctorFiles {
    var state: State
    var log: seq<Event>

    constructor ()
      ensures state == NO_STATE && log == []
    {
      state, log := NO_STATE, [];
    }

    /** One doctor invocation's mutation check, with its result persisted. */
    method CheckRegistry(reading: Reading) returns (events: seq<Event>)
      requires IsReading(reading)
      modifies this
      ensures IsCheck(old(state), reading, state, events)
      ensures log == old(log) + events
    {
      events := [];
      if state.sha256 != reading.sha256 {
        var currIds := Sort(reading.ids);
        var prevIds := Sort(state.agentIds);
        SameElements(reading.ids, currIds);
        SameElements(state.agentIds, prevIds);
        if state.sha256 != "" {
          events := DiffRegistryAgents(prevIds, currIds, reading.sha256, reading.archetypeOf);
          assert Elements(prevIds) == Elements(currIds) ==> events[0] in events;
          assert |currIds| == |reading.ids| by { assert |multiset(currIds)| == |multiset(reading.ids)|; }
        }
        state := State(reading.sha256, currIds);
        log := log + events;
      }
    }
  }

  lemma SameElements(a: seq<string>, b: seq<string>)
    requires forall x :: x in a <==> x in b
    ensures Elements(a) == Elements(b)
  {
  }

  /**
   What one check does: an unchanged hash changes nothing, the first reading
   only seeds the state, and any other reading is saved and its difference
   from the saved ids logged.
   */
  ghost predicate IsCheck(before: State, reading: Reading, after: State, events: seq<Event>) {
    if before.sha256 == reading.sha256 then after == before && events == []
    else
      && after.sha256 == reading.sha256 && Elements(after.agentIds) == Elements(reading.ids) && IsSorted(after.agentIds)
      && if before.sha256 == "" then events == []
         else
           && AddedIds(events) == Elements(reading.ids) - Elements(before.agentIds)
           && RemovedIds(events) == Elements(before.agentIds) - Elements(reading.ids)
           && ((exists e :: e in events && e.Updated?) <==> Elements(reading.ids) == Elements(before.agentIds))
           && (forall e :: e in events ==>
                 if e.Updated? then e == Updated(|reading.ids|, reading.sha256)
                 else IsChange(e, before.agentIds, reading.ids, reading.sha256, reading.archetypeOf))
  }

  /** Equal hashes mean equal files, so equal agent sets. */
  ghost predicate HashesIdentify(readings: seq<Reading>) {
    forall i, k :: 0 <= i < |readings| && 0 <= k < |readings| && readings[i].sha256 == readings[k].sha256 ==>
      Elements(readings[i].ids) == Elements(readings[k].ids)
  }

  /**
   A sequence of doctor runs from an empty state; states[i] is the state after i
   runs, logged[i] what run i logged.
   */
  ghost predicate IsRun(readings: seq<Reading>, states: seq<State>, logged: seq<seq<Event>>) {
    && |states| == |readings| + 1 && |logged| == |readings|
    && states[0] == NO_STATE
    && (forall i :: 0 <= i < |readings| ==>
          IsReading(readings[i]) && IsCheck(states[i], readings[i], states[i + 1], logged[i]))
  }

  /** Replaying additions and removals, one run's events after another, over the first agent set. */
  ghost function Replay(seed: set<string>, logged: seq<seq<Event>>): set<string> {
    if logged == [] then seed
    else
      var last := logged[|logged| - 1];
      Replay(seed, logged[..|logged| - 1]) - RemovedIds(last) + AddedIds(last)
  }

  lemma {:induction false} StateFollowsReadings(readings: seq<Reading>, states: seq<State>, logged: seq<seq<Event>>,
      n: nat)
    requires IsRun(readings, states, logged) && HashesIdentify(readings) && 1 <= n <= |readings|
    ensures states[n].sha256 == readings[n - 1].sha256
    ensures Elements(states[n].agentIds) == Elements(readings[n - 1].ids)
  {
    assert IsCheck(states[n - 1], readings[n - 1], states[n - 1 + 1], logged[n - 1]);
    if n > 1 {
      StateFollowsReadings(readings, states, logged, n - 1);
    }
  }

  /**
   The log is complete: after any runs, replaying every logged addition and
   removal over the agents of the first reading gives exactly the agents of
   the latest one.
   */
  lemma {:induction false} ReplayGivesLatestAgents(readings: seq<Reading>, states: seq<State>,
      logged: seq<seq<Event>>, n: nat)
    requires IsRun(readings, states, logged) && HashesIdentify(readings) && 1 <= n <= |readings|
    ensures Replay(Elements(readings[0].ids), logged[..n]) == Elements(readings[n - 1].ids)
  {
    assert IsCheck(states[n - 1], readings[n - 1], states[n - 1 + 1], logged[n - 1]);
    assert logged[..n][..n - 1] == logged[..n - 1];
    StateFollowsReadings(readings, states, logged, n);
    if n > 1 {
      ReplayGivesLatestAgents(readings, states, logged, n - 1);
      StateFollowsReadings(readings, states, logged, n - 1);
    } else {
      assert Replay(Elements(readings[0].ids), logged[..0]) == Elements(readings[0].ids);
    }
  }

  /** A run after the first logs "updated" exactly when the file changed and its agents did not. */
  lemma UpdatedIff(readings: seq<Reading>, states: seq<State>, logged: seq<seq<Event>>, n: nat)
    requires IsRun(readings, states, logged) && HashesIdentify(readings) && 1 <= n < |readings|
    ensures (exists e :: e in logged[n] && e.Updated?) <==>
            readings[n].sha256 != readings[n - 1].sha256 && Elements(readings[n].ids) == Elements(readings[n - 1].ids)
    ensures AddedIds(logged[n]) !! RemovedIds(logged[n])
  {
    assert IsCheck(states[n], readings[n], states[n + 1], logged[n]);
    StateFollowsReadings(readings, states, logged, n);
  }
}
