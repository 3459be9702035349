/**
 Durable push delivery: the push_outbox table, one drain pass over it, and
 what every run of the delivery worker keeps.  Wall-clock times are in
 nanoseconds; the table stores whole seconds.
 */
module Outbox {
  import opened Devices
  import opened RowIds
  import opened Wrappers

  const SECOND: int := 1_000_000_000
  const DRAIN_LIMIT: nat := 50
  const MAX_ATTEMPTS: nat := 5
  const MAX_AGE: int := 86_400 * SECOND
  const PARK_BACKOFF: int := 900
  const PRUNE_AGE: int := 7 * 86_400

  /** The delay in seconds after the k-th failed attempt. */
  const BACKOFF: seq<int> := [0, 30, 120, 600, 3600]

  function Unix(t: int): int {
    t / SECOND
  }

  datatype Status = Pending | Sent | Dead

  datatype PushRow = PushRow(
    status: Status, attempts: nat, nextAttempt: int, createdAt: int, updatedAt: int, lastError: string,
    targetUser: int, targetDevice: string)

  type PushTable = map<nat, PushRow>

  // ------------------------------------------------------------ one delivery

  /**
   What one visit of the drain loop meets: the time it starts at, the device
   table it looks tokens up in, whether that lookup fails, the row an
   untargeted lookup picks, whether there is an FCM credential, the outcome of
   the send, and the time the row is written back.
   */
  datatype Visit = Visit(
    time: int, devices: Table, lookupFails: bool, anyToken: string, hasSource: bool,
    sendError: Option<string>, writeTime: int)

  predicate InOrder(v: Visit) {
    0 <= v.time <= v.writeTime
  }

  ghost predicate IsVisit(v: Visit) {
    InOrder(v) && IsTable(v.devices) && IsAnyToken(v.devices, v.anyToken)
  }

  datatype Outcome =
    | TooOld | LookupFailed | NoDevice | Parked
    | Delivered(token: string) | GaveUp(token: string) | Retry(token: string)

  ghost function TokenFor(row: PushRow, v: Visit): string {
    if row.targetDevice == "" then v.anyToken
    else match Lookup(v.devices, row.targetUser, row.targetDevice) case Some(t) => t case None => ""
  }

  ghost function OutcomeOf(row: PushRow, v: Visit): Outcome {
    if v.time - row.createdAt * SECOND > MAX_AGE then TooOld
    else if v.lookupFails then LookupFailed
    else if TokenFor(row, v) == "" || !v.hasSource then
      if row.targetDevice != "" then NoDevice else Parked
    else if v.sendError == None then Delivered(TokenFor(row, v))
    else if row.attempts + 1 >= MAX_ATTEMPTS then GaveUp(TokenFor(row, v))
    else Retry(TokenFor(row, v))
  }

  /** What a visit that read the row as p writes to it. */
  ghost function Written(row: PushRow, p: PushRow, v: Visit): PushRow {
    var now := Unix(v.writeTime);
    match OutcomeOf(p, v)
    case TooOld => row.(status := Dead, updatedAt := now, lastError := "age ceiling exceeded")
    case LookupFailed => row
    case NoDevice => row.(status := Dead, updatedAt := now, lastError := "device_token_missing")
    case Parked => row.(nextAttempt := now + PARK_BACKOFF, updatedAt := now, lastError := "parked: no fcm token")
    case Delivered(_) => row.(status := Sent, updatedAt := now, lastError := "")
    case GaveUp(_) => row.(status := Dead, updatedAt := now, lastError := v.sendError.value)
    case Retry(_) =>
      row.(attempts := row.attempts + 1, nextAttempt := now + BACKOFF[p.attempts + 1], updatedAt := now,
           lastError := v.sendError.value)
  }

  /** The row after a visit. */
  ghost function Visited(row: PushRow, v: Visit): PushRow {
    Written(row, row, v)
  }

  // ---------------------------------------------------------- the SQL queries

  function DueIds(rows: PushTable, now: int): set<nat> {
    set id | id in rows && rows[id].status == Pending && rows[id].nextAttempt <= now
  }

  ghost predicate IsAscending(ids: seq<nat>) {
    forall i, j :: 0 <= i < j < |ids| ==> ids[i] < ids[j]
  }

  /** The due rows with the smallest ids, in order, at most `limit` of them. */
  ghost predicate AreFirstDue(rows: PushTable, now: int, limit: nat, ids: seq<nat>) {
    && IsAscending(ids)
    && |ids| <= limit
    && (forall id :: id in ids ==> id in DueIds(rows, now))
    && (forall id :: id in DueIds(rows, now) && id !in ids ==> |ids| == limit && forall k :: k in ids ==> k < id)
  }

  class Queue {
    var rows: PushTable

    constructor ()
      ensures rows == map[]
    {
      rows := map[];
    }

    /** Inserts a pending row; SQLite supplies an id no row has used. */
    method Enqueue(id: nat, targetUser: int, targetDevice: string, time: int)
      requires id !in rows
      modifies this
      ensures rows == Enqueued(old(rows), id, targetUser, targetDevice, time)
    {
      var now := Unix(time);
      rows := rows[id := PushRow(Pending, 0, now, now, now, "", targetUser, targetDevice)];
    }

    method PendingPushes(limit: int, time: int) returns (ids: seq<nat>, items: seq<PushRow>)
      ensures AreFirstDue(rows, Unix(time), if limit <= 0 then 50 else limit, ids)
      ensures |items| == |ids| && forall i :: 0 <= i < |ids| ==> ids[i] in rows && items[i] == rows[ids[i]]
    {
      var most: nat := if limit <= 0 then 50 else limit;
      var due := DueIds(rows, Unix(time));
      ids, items := [], [];
      var rest := due;
      while rest != {} && |ids| < most
        invariant rest <= due && |ids| <= most
        invariant IsAscending(ids)
        invariant forall id :: id in ids <==> id in due && id !in rest
        invariant forall id, k :: id in rest && k in ids ==> k < id
        invariant |items| == |ids| && forall i :: 0 <= i < |ids| ==> ids[i] in rows && items[i] == rows[ids[i]]
        decreases |rest|
      {
        var id := Smallest(rest);
        assert forall i :: 0 <= i < |ids| ==> ids[i] in ids;
        ids, items := ids + [id], items + [rows[id]];
        rest := rest - {id};
      }
    }

    method MarkPushSent(id: nat, time: int)
      modifies this
      ensures rows ==
              if id !in old(rows) then old(rows)
              else old(rows)[id := old(rows)[id].(status := Sent, updatedAt := Unix(time), lastError := "")]
    {
      if id in rows {
        rows := rows[id := rows[id].(status := Sent, updatedAt := Unix(time), lastError := "")];
      }
    }

    method MarkPushDead(id: nat, reason: string, time: int)
      modifies this
      ensures rows ==
              if id !in old(rows) then old(rows)
              else old(rows)[id := old(rows)[id].(status := Dead, updatedAt := Unix(time), lastError := reason)]
    {
      if id in rows {
        rows := rows[id := rows[id].(status := Dead, updatedAt := Unix(time), lastError := reason)];
      }
    }

    method BumpPushAttempt(id: nat, backoff: int, lastError: string, time: int)
      modifies this
      ensures rows == if id in old(rows) then
          var r := old(rows)[id];
          old(rows)[id := r.(attempts := r.attempts + 1, nextAttempt := Unix(time) + backoff,
                             updatedAt := Unix(time), lastError := lastError)]
        else old(rows)
    {
      if id in rows {
        var r := rows[id];
        rows := rows[id := r.(attempts := r.attempts + 1, nextAttempt := Unix(time) + backoff,
                              updatedAt := Unix(time), lastError := lastError)];
      }
    }

    method ParkPush(id: nat, backoff: int, time: int)
      modifies this
      ensures rows == if id in old(rows) then
          old(rows)[id := old(rows)[id].(nextAttempt := Unix(time) + backoff, updatedAt := Unix(time),
                                         lastError := "parked: no fcm token")]
        else old(rows)
    {
      if id in rows {
        rows := rows[id := rows[id].(nextAttempt := Unix(time) + backoff, updatedAt := Unix(time),
                                     lastError := "parked: no fcm token")];
      }
    }

    method PrunePushes(time: int)
      modifies this
      ensures rows == Pruned(old(rows), time)
    {
      rows := Pruned(rows, time);
    }

    /** One turn of the drain loop; `sends` records the id and token of the send it made, if any. */
    method Deliver(id: nat, p: PushRow, v: Visit) returns (sends: seq<(nat, string)>)
      requires id in rows && IsVisit(v)
      modifies this
      ensures rows == old(rows)[id := Written(old(rows)[id], p, v)]
      ensures sends == SendsOf(id, OutcomeOf(p, v))
    {
      sends := [];
      assert rows == rows[id := rows[id]];
      if v.time - p.createdAt * SECOND > MAX_AGE {
        MarkPushDead(id, "age ceiling exceeded", v.writeTime);
        return;
      }
      var token := ResolveToken(p, v);
      if v.lookupFails {
        return;
      }
      if token == "" || !v.hasSource {
        if p.targetDevice != "" {
          MarkPushDead(id, "device_token_missing", v.writeTime);
          return;
        }
        ParkPush(id, PARK_BACKOFF, v.writeTime);
        return;
      }
      sends := [(id, token)];
      if v.sendError.Some? {
        var attempts := p.attempts + 1;
        if attempts >= MAX_ATTEMPTS {
          MarkPushDead(id, v.sendError.value, v.writeTime);
          return;
        }
        BumpPushAttempt(id, BACKOFF[attempts], v.sendError.value, v.writeTime);
        return;
      }
      MarkPushSent(id, v.writeTime);
    }

    /**
     One drain pass: the first due rows, oldest id first, are visited once
     each; no other row changes.  world(i) is what the i-th visit meets.
     */
    method DrainPushOutbox(time: int, queryFails: bool, world: nat -> Visit)
      returns (processed: nat, sends: seq<(nat, string)>, ghost ids: seq<nat>)
      requires forall i :: IsVisit(world(i))
      modifies this
      ensures queryFails ==> ids == []
      ensures !queryFails ==> AreFirstDue(old(rows), Unix(time), 50, ids)
      ensures processed == |ids|
      ensures AreVisited(old(rows), ids, world, rows)
      ensures sends == AllSends(old(rows), ids, world)
    {
      hide Written, OutcomeOf, TokenFor, SendsOf, AreVisited;
      if queryFails {
        NothingVisited(rows, world);
        return 0, [], [];
      }
      var pending, items := PendingPushes(DRAIN_LIMIT, time);
      ids, sends := pending, [];
      ghost var before := rows;
      NothingVisited(rows, world);
      for i := 0 to |items|
        invariant AreVisited(before, ids[..i], world, rows) && rows.Keys == before.Keys
        invariant forall id :: id in before && id !in ids[..i] ==> rows[id] == before[id]
        invariant sends == AllSends(before, ids[..i], world)
      {
        AscendingIsFresh(ids, i);
        ghost var was := rows;
        var more := Deliver(pending[i], items[i], world(i));
        sends := sends + more;
        assert ids[..i + 1] == ids[..i] + [ids[i]];
        VisitOneMore(before, ids[..i], world, was, ids[i]);
      }
      assert ids[..|ids|] == ids;
      return |items|, sends, ids;
    }
  }

  /** The i-th listed row was visited with world(i); every other row is as before. */
  ghost predicate AreVisited(before: PushTable, ids: seq<nat>, world: nat -> Visit, after: PushTable) {
    && after.Keys == before.Keys
    && (forall i :: 0 <= i < |ids| ==> ids[i] in before && after[ids[i]] == Visited(before[ids[i]], world(i)))
    && (forall id :: id in before && id !in ids ==> after[id] == before[id])
  }

  lemma NothingVisited(rows: PushTable, world: nat -> Visit)
    ensures AreVisited(rows, [], world, rows)
  {
  }

  lemma AscendingIsFresh(ids: seq<nat>, i: nat)
    requires IsAscending(ids) && i < |ids|
    ensures ids[i] in ids && ids[i] !in ids[..i]
  {
  }

  lemma VisitOneMore(before: PushTable, ids: seq<nat>, world: nat -> Visit, after: PushTable, id: nat)
    requires AreVisited(before, ids, world, after) && id in before && id !in ids
    ensures AreVisited(before, ids + [id], world, after[id := Visited(before[id], world(|ids|))])
  {
    hide Visited;
  }

  ghost function AllSends(rows: PushTable, ids: seq<nat>, world: nat -> Visit): seq<(nat, string)>
    requires forall id :: id in ids ==> id in rows
  {
    if ids == [] then []
    else
      var last := |ids| - 1;
      AllSends(rows, ids[..last], world) + SendsOf(ids[last], OutcomeOf(rows[ids[last]], world(last)))
  }

  /** LookupDeviceToken for a targeted row, GetDeviceToken otherwise. */
  method ResolveToken(row: PushRow, v: Visit) returns (token: string)
    requires IsTable(v.devices)
    ensures token == TokenFor(row, v)
  {
    if row.targetDevice == "" {
      return v.anyToken;
    }
    var registry := new Registry();
    registry.rows := v.devices;
    token := registry.LookupDeviceToken(row.targetUser, row.targetDevice);
  }

  ghost function SendsOf(id: nat, o: Outcome): seq<(nat, string)> {
    match o
    case Delivered(t) => [(id, t)]
    case GaveUp(t) => [(id, t)]
    case Retry(t) => [(id, t)]
    case _ => []
  }

  function Enqueued(rows: PushTable, id: nat, targetUser: int, targetDevice: string, time: int): PushTable {
    rows[id := FreshRow(targetUser, targetDevice, time)]
  }

  /** Without the sent rows of more than a week ago. */
  function Pruned(rows: PushTable, time: int): PushTable {
    map id | id in rows && !(rows[id].status == Sent && rows[id].updatedAt < Unix(time) - PRUNE_AGE) :: rows[id]
  }

  /** A push aimed at a device is only ever sent to the token of that user's own enabled row. */
  lemma TargetedSendsReachTheirDevice(rows: PushTable, ids: seq<nat>, world: nat -> Visit, k: nat)
    requires forall id :: id in ids ==> id in rows
    requires forall i :: 0 <= i < |ids| ==> IsVisit(world(i))
    requires k < |AllSends(rows, ids, world)|
    ensures var (id, token) := AllSends(rows, ids, world)[k];
            id in ids && token != "" &&
            (rows[id].targetDevice != "" ==>
              exists i, r :: 0 <= i < |ids| && ids[i] == id && r in world(i).devices &&
                r.enabled && r.userId == Some(rows[id].targetUser) && r.deviceId == rows[id].targetDevice &&
                  r.token == token)
  {
    var last := |ids| - 1;
    var front := AllSends(rows, ids[..last], world);
    if k < |front| {
      TargetedSendsReachTheirDevice(rows, ids[..last], world, k);
    } else {
      var row, v := rows[ids[last]], world(last);
      if row.targetDevice != "" {
        var r := RowOf(v.devices, row.targetUser, row.targetDevice);
        assert r.Some? && r.value in v.devices;
      }
    }
  }

  // -------------------------------------------------------------------- runs

  /** The seconds a row has waited, at least, once it failed `attempts` times. */
  function Waited(attempts: nat): (seconds: int)
    requires attempts < MAX_ATTEMPTS
    ensures seconds >= 0
  {
    if attempts == 0 then 0 else Waited(attempts - 1) + BACKOFF[attempts]
  }

  /** A row as it is queued. */
  function FreshRow(user: int, device: string, time: int): PushRow {
    PushRow(Pending, 0, Unix(time), Unix(time), Unix(time), "", user, device)
  }

  ghost function AfterVisits(row: PushRow, visits: seq<Visit>): PushRow {
    if visits == [] then row else Visited(AfterVisits(row, visits[..|visits| - 1]), visits[|visits| - 1])
  }

  /** Visits that each find the row pending and due. */
  ghost predicate AreVisits(row: PushRow, visits: seq<Visit>) {
    visits != [] ==>
      var p, v := AfterVisits(row, visits[..|visits| - 1]), visits[|visits| - 1];
      AreVisits(row, visits[..|visits| - 1]) && IsVisit(v) && p.status == Pending && p.nextAttempt <= Unix(v.time)
  }

  ghost function LastOutcome(row: PushRow, visits: seq<Visit>): Outcome
    requires visits != []
  {
    OutcomeOf(AfterVisits(row, visits[..|visits| - 1]), visits[|visits| - 1])
  }

  ghost predicate IsFailure(o: Outcome) {
    o.Retry? || o.GaveUp?
  }

  ghost function Parks(row: PushRow, visits: seq<Visit>): nat {
    if visits == [] then 0
    else Parks(row, visits[..|visits| - 1]) + if LastOutcome(row, visits).Parked? then 1 else 0
  }

  ghost function Failures(row: PushRow, visits: seq<Visit>): nat {
    if visits == [] then 0
    else Failures(row, visits[..|visits| - 1]) + if IsFailure(LastOutcome(row, visits)) then 1 else 0
  }

  lemma UnixMonotone(t: int, u: int)
    requires t <= u
    ensures Unix(t) <= Unix(u)
  {
  }

  /**
   What holds of a row after any visits: at most four failures, never parked
   more than 97 times because it is too old by then, and, while pending, it has
   waited out every backoff and every park it went through.
   */
  ghost predicate IsRowOk(row: PushRow, parks: nat) {
    && row.attempts < MAX_ATTEMPTS
    && parks <= 97
    && (row.status == Pending ==> row.nextAttempt >= row.createdAt + Waited(row.attempts) + PARK_BACKOFF * parks)
  }

  lemma VisitKeepsRowOk(row: PushRow, parks: nat, v: Visit)
    requires IsRowOk(row, parks) && row.status == Pending && row.nextAttempt <= Unix(v.time) && IsVisit(v)
    ensures IsRowOk(Visited(row, v), parks + if OutcomeOf(row, v).Parked? then 1 else 0)
  {
    hide TokenFor;
    UnixMonotone(v.time, v.writeTime);
    if OutcomeOf(row, v).Parked? {
      assert Unix(v.time) <= row.createdAt + 86_400;
      assert PARK_BACKOFF * (parks + 1) == PARK_BACKOFF * parks + PARK_BACKOFF;
    }
  }

  lemma {:induction false} RowStaysOk(user: int, device: string, time: int, visits: seq<Visit>)
    requires AreVisits(FreshRow(user, device, time), visits)
    ensures IsRowOk(AfterVisits(FreshRow(user, device, time), visits), Parks(FreshRow(user, device, time), visits))
  {
    hide IsRowOk, Visited, OutcomeOf, IsVisit;
    var row := FreshRow(user, device, time);
    if visits == [] {
      assert IsRowOk(row, 0) by { FreshRowOk(user, device, time); }
    } else {
      var front, v := visits[..|visits| - 1], visits[|visits| - 1];
      RowStaysOk(user, device, time, front);
      VisitKeepsRowOk(AfterVisits(row, front), Parks(row, front), v);
    }
  }

  lemma FreshRowOk(user: int, device: string, time: int)
    ensures IsRowOk(FreshRow(user, device, time), 0)
  {
  }

  /** Every send failed; other visits parked the row or could not look a token up. */
  ghost predicate NoSendSucceeds(row: PushRow, visits: seq<Visit>) {
    visits != [] ==>
      var o := LastOutcome(row, visits);
      NoSendSucceeds(row, visits[..|visits| - 1]) && (IsFailure(o) || o.Parked? || o.LookupFailed?)
  }

  /**
   A row whose sends all fail is due again 30 s, 2 min, 10 min and 1 h after its
   failures and dies of the fifth one, no earlier than 4350 s after it was
   queued.  Parking it or failing to look its token up, however often, uses up
   none of its attempts.
   */
  lemma {:induction false} FailureSchedule(user: int, device: string, time: int, visits: seq<Visit>)
    requires var row := FreshRow(user, device, time); AreVisits(row, visits) && NoSendSucceeds(row, visits)
    ensures var row := FreshRow(user, device, time);
            var p, k := AfterVisits(row, visits), Failures(row, visits);
            && p.createdAt == row.createdAt
            && k <= MAX_ATTEMPTS
            && (p.status == Dead <==> k == MAX_ATTEMPTS)
            && (k < MAX_ATTEMPTS ==>
                  p.status == Pending && p.attempts == k && p.nextAttempt >= row.createdAt + Waited(k))
            && (visits != [] && IsFailure(LastOutcome(row, visits)) ==>
                  var v := visits[|visits| - 1];
                  if k < MAX_ATTEMPTS then p.nextAttempt == Unix(v.writeTime) + BACKOFF[k]
                  else Unix(v.time) >= row.createdAt + 4350)
  {
    hide TokenFor, IsVisit;
    RowStaysOk(user, device, time, visits);
    if visits != [] {
      var front := visits[..|visits| - 1];
      FailureSchedule(user, device, time, front);
      RowStaysOk(user, device, time, front);
      assert Waited(4) == Waited(3) + 3600 && Waited(3) == Waited(2) + 600 && Waited(2) == Waited(1) + 120;
    }
  }

  // -------------------------------------------------------------------- runs

  /** What happened to one id: how its row was queued, and the visits it got. */
  datatype Log = Log(user: int, device: string, time: int, visits: seq<Visit>)

  /**
   The table, the log of every id ever used, the rows the current drain pass
   still has to visit as it read them, and the last clock reading of the worker.
   */
  datatype State = State(rows: PushTable, logs: map<nat, Log>, batch: seq<(nat, PushRow)>, clock: int)

  /** Pushes arrive at any moment, also between two turns of a drain pass; the process may restart. */
  datatype Event =
    | Push(id: nat, user: int, device: string, time: int)
    | StartPass(ids: seq<nat>, time: int)
    | Turn(visit: Visit)
    | Prune(time: int)
    | Restart

  const INITIAL := State(map[], map[], [], 0)

  function Read(rows: PushTable, ids: seq<nat>): (items: seq<(nat, PushRow)>)
    requires forall id :: id in ids ==> id in rows
    ensures |items| == |ids| && forall i :: 0 <= i < |ids| ==> ids[i] in ids && items[i] == (ids[i], rows[ids[i]])
  {
    seq(|ids|, i requires 0 <= i < |ids| => assert ids[i] in ids; (ids[i], rows[ids[i]]))
  }

  ghost predicate CanHappen(s: State, e: Event) {
    match e
    case Push(id, _, _, _) => id !in s.logs
    case StartPass(ids, time) => s.batch == [] && s.clock <= time && AreFirstDue(s.rows, Unix(time), DRAIN_LIMIT, ids)
    case Turn(v) => s.batch != [] && s.clock <= v.time && IsVisit(v)
    case Prune(_) => s.batch == []
    case Restart => true
  }

  ghost function Next(s: State, e: Event): State
    requires CanHappen(s, e)
  {
    match e
    case Push(id, user, device, time) =>
      s.(rows := Enqueued(s.rows, id, user, device, time), logs := s.logs[id := Log(user, device, time, [])])
    case StartPass(ids, time) =>
      s.(batch := Read(s.rows, ids), clock := time)
    case Turn(v) =>
      var (id, p) := s.batch[0];
      s.(rows := if id in s.rows then s.rows[id := Written(s.rows[id], p, v)] else s.rows,
         logs := if id in s.logs then s.logs[id := s.logs[id].(visits := s.logs[id].visits + [v])] else s.logs,
         batch := s.batch[1..], clock := v.writeTime)
    case Prune(time) => s.(rows := Pruned(s.rows, time))
    case Restart => s.(batch := [])
  }

  /** The state after a run, if every event of it can happen in turn. */
  ghost function After(events: seq<Event>): Option<State> {
    if events == [] then Some(INITIAL)
    else
      match After(events[..|events| - 1])
      case None => None
      case Some(s) => var e := events[|events| - 1]; if CanHappen(s, e) then Some(Next(s, e)) else None
  }

  ghost predicate IsLogged(row: PushRow, log: Log) {
    var born := FreshRow(log.user, log.device, log.time);
    AreVisits(born, log.visits) && row == AfterVisits(born, log.visits)
  }

  /** A row the pass still has to visit is as the pass read it: pending and due. */
  ghost predicate IsWaiting(s: State, id: nat, p: PushRow) {
    id in s.rows && s.rows[id] == p && p.status == Pending && p.nextAttempt <= Unix(s.clock)
  }

  /** Every row is the outcome of its log. */
  ghost predicate Inv(s: State) {
    && s.rows.Keys <= s.logs.Keys
    && (forall id :: id in s.rows ==> IsLogged(s.rows[id], s.logs[id]))
    && (forall k :: 0 <= k < |s.batch| ==> IsWaiting(s, s.batch[k].0, s.batch[k].1))
    && (forall j, k :: 0 <= j < k < |s.batch| ==> s.batch[j].0 != s.batch[k].0)
  }

  lemma VisitIsLogged(row: PushRow, log: Log, v: Visit)
    requires IsLogged(row, log) && row.status == Pending && row.nextAttempt <= Unix(v.time) && IsVisit(v)
    ensures IsLogged(Visited(row, v), log.(visits := log.visits + [v]))
  {
    assert (log.visits + [v])[..|log.visits|] == log.visits;
  }

  lemma TurnKeepsInv(s: State, v: Visit)
    requires Inv(s) && CanHappen(s, Turn(v))
    ensures Inv(Next(s, Turn(v)))
  {
    hide IsLogged, Written, IsVisit;
    var t, id, p := Next(s, Turn(v)), s.batch[0].0, s.batch[0].1;
    assert IsWaiting(s, id, p);
    UnixMonotone(s.clock, v.time);
    UnixMonotone(v.time, v.writeTime) by { VisitInOrder(v); }
    VisitIsLogged(p, s.logs[id], v);
    forall k | 0 <= k < |t.batch| ensures IsWaiting(t, t.batch[k].0, t.batch[k].1) {
      assert t.batch[k] == s.batch[k + 1] && IsWaiting(s, s.batch[k + 1].0, s.batch[k + 1].1);
    }
  }

  lemma VisitInOrder(v: Visit)
    requires IsVisit(v)
    ensures InOrder(v)
  {
  }

  lemma StepKeepsInv(s: State, e: Event)
    requires Inv(s) && CanHappen(s, e)
    ensures Inv(Next(s, e))
  {
    hide IsLogged, Written, IsVisit;
    match e
    case Push(id, user, device, time) => FreshIsLogged(user, device, time);
    case Turn(v) => TurnKeepsInv(s, v);
    case _ =>
  }

  lemma FreshIsLogged(user: int, device: string, time: int)
    ensures IsLogged(FreshRow(user, device, time), Log(user, device, time, []))
  {
  }

  /** In every reachable state every row is what its log made of it, whatever arrives between the turns of a pass. */
  lemma {:induction false} RunKeepsInv(events: seq<Event>)
    requires After(events).Some?
    ensures Inv(After(events).value)
  {
    hide Inv, CanHappen;
    if events == [] {
      InitialInv();
    } else {
      var front := events[..|events| - 1];
      RunKeepsInv(front);
      StepKeepsInv(After(front).value, events[|events| - 1]);
    }
  }

  lemma InitialInv()
    ensures Inv(INITIAL)
  {
  }

  /** So every reachable row had at most four failures, was parked at most 97 times, and waited them all out. */
  lemma RowsAreBounded(events: seq<Event>, id: nat)
    requires After(events).Some? && id in After(events).value.rows
    ensures var s := After(events).value;
            id in s.logs && IsLogged(s.rows[id], s.logs[id]) &&
            var log := s.logs[id];
            IsRowOk(s.rows[id], Parks(FreshRow(log.user, log.device, log.time), log.visits))
  {
    hide IsRowOk;
    RunKeepsInv(events);
    var log := After(events).value.logs[id];
    RowStaysOk(log.user, log.device, log.time, log.visits);
  }

  /** One step leaves a sent or dead row alone, except that a sent row may be pruned. */
  lemma StepLeavesFinished(s: State, e: Event, id: nat)
    requires Inv(s) && CanHappen(s, e) && id in s.logs
    requires id in s.rows ==> s.rows[id].status != Pending
    ensures var t := Next(s, e);
            && id in t.logs
            && (id in t.rows ==> id in s.rows && t.rows[id] == s.rows[id])
            && (id in s.rows && s.rows[id].status == Dead ==> id in t.rows)
  {
    hide Written, IsLogged, IsVisit;
    if e.Turn? {
      assert IsWaiting(s, s.batch[0].0, s.batch[0].1);
    }
  }

  /**
   Sent and dead are final: such a row never changes again, a dead one never
   disappears, and its id is never reused.
   */
  lemma {:induction false} FinishedIsFinal(events: seq<Event>, k: nat, id: nat)
    requires After(events).Some? && k <= |events| && After(events[..k]).Some?
    requires var s := After(events[..k]).value; id in s.rows && s.rows[id].status != Pending
    ensures var s, t := After(events[..k]).value, After(events).value;
            && id in t.logs
            && (id in t.rows ==> t.rows[id] == s.rows[id])
            && (s.rows[id].status == Dead ==> id in t.rows)
    decreases |events|
  {
    hide Inv, CanHappen, Next;
    if k == |events| {
      assert events[..k] == events;
      RunKeepsInv(events);
      assert id in After(events).value.logs by { InvLogs(After(events).value); }
    } else {
      var front := events[..|events| - 1];
      assert front[..k] == events[..k];
      FinishedIsFinal(front, k, id);
      RunKeepsInv(front);
      StepLeavesFinished(After(front).value, events[|events| - 1], id);
    }
  }

  lemma InvLogs(s: State)
    requires Inv(s)
    ensures s.rows.Keys <= s.logs.Keys
  {
  }

  /** A row past the age ceiling when its turn comes is dead after it. */
  lemma OldRowsDie(events: seq<Event>, v: Visit)
    requires After(events).Some? && CanHappen(After(events).value, Turn(v))
    ensures var s := After(events).value;
            var id := s.batch[0].0;
            id in s.rows &&
            (v.time - s.rows[id].createdAt * SECOND > MAX_AGE ==> Next(s, Turn(v)).rows[id].status == Dead)
  {
    hide IsVisit;
    RunKeepsInv(events);
    var s := After(events).value;
    assert IsWaiting(s, s.batch[0].0, s.batch[0].1);
  }

  // -------------------------------------------------------- what a turn decides

  /** The row is at most 24 hours old when its turn comes. */
  predicate IsFresh(row: PushRow, v: Visit) {
    v.time - row.createdAt * 1_000_000_000 <= 24 * 3600 * 1_000_000_000
  }

  /** A token is there: for a targeted row that of its own enabled device, otherwise any. */
  ghost predicate HasToken(row: PushRow, v: Visit) {
    if row.targetDevice == "" then v.anyToken != ""
    else exists r :: r in v.devices && r.enabled && r.userId == Some(row.targetUser) &&
           r.deviceId == row.targetDevice && r.token != ""
  }

  /** The visit gets as far as a send. */
  ghost predicate CanSend(row: PushRow, v: Visit) {
    IsFresh(row, v) && !v.lookupFails && v.hasSource && HasToken(row, v)
  }

  lemma HasTokenIff(row: PushRow, v: Visit)
    requires IsVisit(v)
    ensures HasToken(row, v) <==> TokenFor(row, v) != ""
  {
    if row.targetDevice != "" {
      if HasToken(row, v) {
        var r :| r in v.devices && r.enabled && r.userId == Some(row.targetUser) &&
          r.deviceId == row.targetDevice && r.token != "";
        RowOfUnique(v.devices, row.targetUser, row.targetDevice, r);
      }
    }
  }

  /** A send is made exactly on a fresh row with a working lookup, a token and a credential. */
  lemma SendsIff(id: nat, row: PushRow, v: Visit)
    requires IsVisit(v)
    ensures SendsOf(id, OutcomeOf(row, v)) == if CanSend(row, v) then [(id, TokenFor(row, v))] else []
  {
    hide HasToken, TokenFor, IsVisit;
    HasTokenIff(row, v);
  }

  /** The seconds until the next attempt after the k-th failed one. */
  function Delay(k: nat): int {
    match k case 1 => 30 case 2 => 120 case 3 => 600 case 4 => 3600 case _ => 0
  }

  /** The row after its turn: one clause per way a turn can end. */
  ghost predicate IsAfterTurn(row: PushRow, v: Visit, after: PushRow) {
    var now := Unix(v.writeTime);
    && (!IsFresh(row, v) ==>
          after == row.(status := Dead, updatedAt := now, lastError := "age ceiling exceeded"))
    && (IsFresh(row, v) && v.lookupFails ==> after == row)
    && (IsFresh(row, v) && !v.lookupFails && !CanSend(row, v) && row.targetDevice != "" ==>
          after == row.(status := Dead, updatedAt := now, lastError := "device_token_missing"))
    && (IsFresh(row, v) && !v.lookupFails && !CanSend(row, v) && row.targetDevice == "" ==>
          after == row.(nextAttempt := now + 900, updatedAt := now, lastError := "parked: no fcm token"))
    && (CanSend(row, v) && v.sendError.None? ==> after == row.(status := Sent, updatedAt := now, lastError := ""))
    && (CanSend(row, v) && v.sendError.Some? && row.attempts < 4 ==>
          after == row.(attempts := row.attempts + 1, nextAttempt := now + Delay(row.attempts + 1), updatedAt := now,
                        lastError := v.sendError.value))
    && (CanSend(row, v) && v.sendError.Some? && row.attempts >= 4 ==>
          after == row.(status := Dead, updatedAt := now, lastError := v.sendError.value))
  }

  lemma VisitDecides(row: PushRow, v: Visit)
    requires IsVisit(v)
    ensures IsAfterTurn(row, v, Visited(row, v))
  {
    hide HasToken, TokenFor, IsVisit;
    HasTokenIff(row, v);
  }

  /** In every run a turn moves its row, found pending, by exactly one of these clauses, and no other row. */
  lemma TurnDecides(events: seq<Event>, v: Visit)
    requires After(events).Some? && CanHappen(After(events).value, Turn(v))
    ensures var s := After(events).value;
            var t, id := Next(s, Turn(v)), s.batch[0].0;
            && id in s.rows && s.rows[id].status == Pending
            && t.rows.Keys == s.rows.Keys
            && IsAfterTurn(s.rows[id], v, t.rows[id])
            && forall other :: other in s.rows && other != id ==> t.rows[other] == s.rows[other]
  {
    hide IsVisit, IsAfterTurn, Written;
    RunKeepsInv(events);
    var s := After(events).value;
    assert IsWaiting(s, s.batch[0].0, s.batch[0].1);
    VisitDecides(s.batch[0].1, v);
  }

  /** The event is a turn of this row whose send succeeds. */
  ghost predicate Succeeds(s: State, e: Event, id: nat) {
    e.Turn? && s.batch != [] && s.batch[0].0 == id && id in s.rows &&
    CanSend(s.rows[id], e.visit) && e.visit.sendError.None?
  }

  /** A row becomes sent exactly by a turn whose send succeeds. */
  lemma SentIff(events: seq<Event>, e: Event, id: nat)
    requires After(events).Some? && CanHappen(After(events).value, e) && id in Next(After(events).value, e).rows
    ensures var s := After(events).value;
            Next(s, e).rows[id].status == Sent <==> Succeeds(s, e, id) || (id in s.rows && s.rows[id].status == Sent)
  {
    hide IsVisit, Written, CanSend, IsAfterTurn, Inv;
    var s := After(events).value;
    RunKeepsInv(events);
    InvLogs(s);
    if e.Turn? {
      TurnDecides(events, e.visit);
      if id in s.rows && id == s.batch[0].0 { AfterTurnSent(s.rows[id], e.visit, Next(s, e).rows[id]); }
    }
  }

  lemma AfterTurnSent(row: PushRow, v: Visit, after: PushRow)
    requires IsAfterTurn(row, v, after) && row.status == Pending
    ensures after.status == Sent <==> CanSend(row, v) && v.sendError.None?
  {
    hide HasToken;
  }

  /** A push is pending and due from the second it is queued,. */
  lemma QueuedIsDue(events: seq<Event>, id: nat, user: int, device: string, time: int, now: int)
    requires After(events).Some? && CanHappen(After(events).value, Push(id, user, device, time)) && time <= now
    ensures var t := Next(After(events).value, Push(id, user, device, time));
            id in DueIds(t.rows, Unix(now)) && t.rows[id].attempts == 0 && t.rows[id].createdAt == Unix(time) &&
            t.rows[id].targetUser == user && t.rows[id].targetDevice == device
  {
    UnixMonotone(time, now);
  }

  /** A push can be delivered: queued, read by the next pass, and sent in its turn. */
  lemma PushCanBeSent(id: nat, user: int, device: string, time: int, v: Visit)
    requires 0 <= time <= v.time && IsVisit(v) && CanSend(FreshRow(user, device, time), v) && v.sendError.None?
    ensures var s := After([Push(id, user, device, time), StartPass([id], time), Turn(v)]);
            s.Some? && id in s.value.rows && s.value.rows[id].status == Sent
  {
    hide IsVisit, CanSend, IsAfterTurn, Written, After, AreFirstDue;
    var before := [Push(id, user, device, time), StartPass([id], time)];
    QueuedAndRead(id, user, device, time);
    assert before + [Turn(v)] == [Push(id, user, device, time), StartPass([id], time), Turn(v)];
    OneMore(before, Turn(v));
    TurnDecides(before, v);
    AfterTurnSent(FreshRow(user, device, time), v, Next(After(before).value, Turn(v)).rows[id]);
  }

  lemma QueuedAndRead(id: nat, user: int, device: string, time: int)
    requires 0 <= time
    ensures var s := After([Push(id, user, device, time), StartPass([id], time)]);
            s.Some? && s.value.batch == [(id, FreshRow(user, device, time))] && s.value.clock == time &&
            id in s.value.rows && s.value.rows[id] == FreshRow(user, device, time)
  {
    hide After;
    var push, start := Push(id, user, device, time), StartPass([id], time);
    NothingHappened();
    assert [] + [push] == [push] && [push] + [start] == [push, start];
    OneMore([], push);
    OneMore([push], start);
  }

  lemma NothingHappened()
    ensures After([]) == Some(INITIAL)
  {
  }

  /** Over a run, each id has at most one successful send. */
  lemma OneSuccess(events: seq<Event>, i: nat, k: nat, id: nat)
    requires After(events).Some? && i < k < |events|
    requires After(events[..i]).Some? && After(events[..k]).Some?
    requires Succeeds(After(events[..i]).value, events[i], id)
    ensures !Succeeds(After(events[..k]).value, events[k], id)
  {
    hide After, Inv, Next, CanHappen, Succeeds;
    PrefixesRun(events, i + 1);
    PrefixesRun(events, k + 1);
    assert events[..k][..i + 1] == events[..i + 1];
    LastEvent(events, i);
    LastEvent(events, k);
    SuccessSends(events[..i], events[i], id);
    FinishedIsFinal(events[..k], i + 1, id);
    if Succeeds(After(events[..k]).value, events[k], id) {
      SuccessNeedsPending(events[..k], events[k], id);
    }
  }

  lemma LastEvent(events: seq<Event>, i: nat)
    requires i < |events| && After(events[..i]).Some? && After(events[..i + 1]).Some?
    ensures CanHappen(After(events[..i]).value, events[i])
    ensures After(events[..i + 1]).value == Next(After(events[..i]).value, events[i])
  {
    assert events[..i + 1][..i] == events[..i];
  }

  lemma SuccessSends(events: seq<Event>, e: Event, id: nat)
    requires After(events).Some? && CanHappen(After(events).value, e) && Succeeds(After(events).value, e, id)
    ensures var t := Next(After(events).value, e); id in t.rows && t.rows[id].status == Sent
  {
    hide CanSend, IsVisit, Written, Inv, IsAfterTurn;
    TurnDecides(events, e.visit);
    var s := After(events).value;
    AfterTurnSent(s.rows[id], e.visit, Next(s, e).rows[id]);
  }

  lemma SuccessNeedsPending(events: seq<Event>, e: Event, id: nat)
    requires After(events).Some? && CanHappen(After(events).value, e) && Succeeds(After(events).value, e, id)
    ensures id in After(events).value.rows && After(events).value.rows[id].status == Pending
  {
    TurnDecides(events, e.visit);
  }

  /** Every beginning of a run is a run. */
  lemma {:induction false} PrefixesRun(events: seq<Event>, n: nat)
    requires After(events).Some? && n <= |events|
    ensures After(events[..n]).Some?
    decreases |events|
  {
    if n == |events| {
      assert events[..n] == events;
    } else {
      var front := events[..|events| - 1];
      assert front[..n] == events[..n];
      PrefixesRun(front, n);
    }
  }

  /** A sent row is pruned exactly when it was written more than seven days ago, and no other row ever is. */
  lemma PrunedIff(s: State, time: int, id: nat)
    requires CanHappen(s, Prune(time)) && id in s.rows
    ensures var t := Next(s, Prune(time));
            && (id !in t.rows <==> s.rows[id].status == Sent && s.rows[id].updatedAt + 604_800 < Unix(time))
            && (id in t.rows ==> t.rows[id] == s.rows[id])
  {
  }

  // ------------------------------------------------------ a pass as part of runs

  /** The worker's clock before the i-th turn of a pass. */
  function ClockBefore(world: nat -> Visit, i: nat, time: int): int {
    if i == 0 then time else world(i - 1).writeTime
  }

  /** The i-th turn of a pass starts after the one before it, and the first after the query. */
  ghost predicate FollowsClock(world: nat -> Visit, n: nat, time: int) {
    forall i :: 0 <= i < n ==> IsVisit(world(i)) && world(i).time >= ClockBefore(world, i, time)
  }

  function Turns(world: nat -> Visit, n: nat): seq<Event> {
    seq(n, i requires 0 <= i => Turn(world(i)))
  }

  /** The state of a pass after n turns. */
  ghost predicate IsMidPass(before: PushTable, ids: seq<nat>, world: nat -> Visit, time: int, n: nat, s: State)
    requires (forall id :: id in ids ==> id in before) && n <= |ids|
  {
    s.batch == Read(before, ids)[n..] && AreVisited(before, ids[..n], world, s.rows) &&
      s.clock == ClockBefore(world, n, time)
  }

  lemma TurnGoesOn(before: PushTable, ids: seq<nat>, world: nat -> Visit, time: int, n: nat, s: State)
    requires IsAscending(ids) && n < |ids| && (forall id :: id in ids ==> id in before)
    requires FollowsClock(world, |ids|, time) && IsMidPass(before, ids, world, time, n, s)
    ensures CanHappen(s, Turn(world(n))) && IsMidPass(before, ids, world, time, n + 1, Next(s, Turn(world(n))))
  {
    hide Written, IsVisit, AreVisited;
    assert CanHappen(s, Turn(world(n)));
    assert s.batch[0] == Read(before, ids)[n] == (ids[n], before[ids[n]]);
    var t := Next(s, Turn(world(n)));
    assert t.batch == s.batch[1..] == Read(before, ids)[n + 1..];
    RowIsVisited(before, ids, world, n, s.rows);
  }

  lemma RowIsVisited(before: PushTable, ids: seq<nat>, world: nat -> Visit, n: nat, rows: PushTable)
    requires IsAscending(ids) && n < |ids| && ids[n] in before && AreVisited(before, ids[..n], world, rows)
    ensures ids[n] in rows && AreVisited(before, ids[..n + 1], world,
            rows[ids[n] := Written(rows[ids[n]], before[ids[n]], world(n))])
  {
    hide Written;
    AscendingIsFresh(ids, n);
    assert ids[..n + 1] == ids[..n] + [ids[n]];
    VisitOneMore(before, ids[..n], world, rows, ids[n]);
  }

  lemma OneMore(events: seq<Event>, e: Event)
    requires After(events).Some? && CanHappen(After(events).value, e)
    ensures After(events + [e]) == Some(Next(After(events).value, e))
  {
    assert (events + [e])[..|events|] == events;
  }

  /** A drain pass, as DrainPushOutbox specifies it, is a piece of a run. */
  lemma {:induction false} PassIsRun(events: seq<Event>, ids: seq<nat>, world: nat -> Visit, time: int, n: nat)
    requires After(events).Some? && CanHappen(After(events).value, StartPass(ids, time))
    requires n <= |ids| && FollowsClock(world, |ids|, time)
    ensures var s, r := After(events).value, After(events + [StartPass(ids, time)] + Turns(world, n));
            r.Some? && (forall id :: id in ids ==> id in s.rows) && IsMidPass(s.rows, ids, world, time, n, r.value)
  {
    hide After, IsMidPass, CanHappen, Next, FollowsClock, Read;
    var s, start := After(events).value, events + [StartPass(ids, time)];
    PassStarts(s, ids, world, time);
    if n == 0 {
      OneMore(events, StartPass(ids, time));
      assert start + Turns(world, 0) == start;
    } else {
      PassIsRun(events, ids, world, time, n - 1);
      var run := start + Turns(world, n - 1);
      TurnGoesOn(s.rows, ids, world, time, n - 1, After(run).value);
      OneMore(run, Turn(world(n - 1)));
      assert start + Turns(world, n) == run + [Turn(world(n - 1))];
    }
  }

  lemma PassStarts(s: State, ids: seq<nat>, world: nat -> Visit, time: int)
    requires CanHappen(s, StartPass(ids, time))
    ensures IsAscending(ids) && (forall id :: id in ids ==> id in s.rows)
    ensures IsMidPass(s.rows, ids, world, time, 0, Next(s, StartPass(ids, time)))
  {
    hide Written, IsVisit;
    assert ids[..0] == [];
    NothingVisited(s.rows, world);
  }
}
