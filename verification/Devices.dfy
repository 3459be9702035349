/**
 The device registry: one table with two uniqueness constraints, a globally
 unique push token and a unique (user, device) pair, where legacy rows carry
 no user.  Conditions follow SQL's three-valued logic.
 */
module Devices {
  import opened Wrappers

  datatype Row = Row(
    token: string, updatedAt: int, userId: Option<int>, deviceId: string, deviceName: string,
    platform: string, appVersion: string, enabled: bool, createdAt: int, tokenUpdatedAt: int, lastSeenAt: int)

  type Table = set<Row>

  datatype Request = Request(deviceId: string, fcmToken: string, deviceName: string, platform: string,
      appVersion: string)

  // -------------------------------------------------------------- conditions

  datatype Truth = True | False | Unknown

  function Not3(a: Truth): Truth {
    match a case True => False case False => True case Unknown => Unknown
  }

  function And3(a: Truth, b: Truth): Truth {
    if a == False || b == False then False else if a == Unknown || b == Unknown then Unknown else True
  }

  function Equals<T(==)>(column: Option<T>, value: T): Truth {
    if column == None then Unknown else if column.value == value then True else False
  }

  /** user_id=? AND device_id=? */
  function IsDevice(r: Row, user: int, device: string): Truth {
    And3(Equals(r.userId, user), Equals(Some(r.deviceId), device))
  }

  /** token=? AND NOT (user_id=? AND device_id=?) */
  function HoldsTokenElsewhere(r: Row, token: string, user: int, device: string): Truth {
    And3(Equals(Some(r.token), token), Not3(IsDevice(r, user, device)))
  }

  // ------------------------------------------------------------------- table

  ghost predicate TokensUnique(t: Table) {
    forall r, s :: r in t && s in t && r.token == s.token ==> r == s
  }

  /** The unique index on (user_id, device_id); rows without a user never collide. */
  ghost predicate DevicesUnique(t: Table) {
    forall r, s :: r in t && s in t && r.userId.Some? && r.userId == s.userId && r.deviceId == s.deviceId ==> r == s
  }

  ghost predicate IsTable(t: Table) {
    && TokensUnique(t) && DevicesUnique(t)
    && forall r :: r in t && r.userId.None? ==> r.deviceId == ""
  }

  /** The row a new registration leaves for its device, given the row that was there. */
  function RegisteredRow(before: Option<Row>, user: int, req: Request, now: int): Row {
    var platform := if req.platform == "" then "android" else req.platform;
    match before
    case None =>
      Row(req.fcmToken, now, Some(user), req.deviceId, req.deviceName, platform, req.appVersion, true, now, now, now)
    case Some(r) =>
      r.(token := req.fcmToken, updatedAt := now, deviceName := req.deviceName, platform := platform,
         appVersion := req.appVersion, enabled := true,
         tokenUpdatedAt := if r.token != req.fcmToken then now else r.tokenUpdatedAt, lastSeenAt := now)
  }

  /** The row of a device, if it has one. */
  ghost function RowOf(t: Table, user: int, device: string): (r: Option<Row>)
    ensures r.Some? ==> r.value in t && IsDevice(r.value, user, device) == True
    ensures r.None? ==> forall s :: s in t ==> IsDevice(s, user, device) != True
  {
    if s :| s in t && IsDevice(s, user, device) == True then Some(s) else None
  }

  predicate HasToken(r: Option<Row>, token: string) {
    r.Some? && r.value.token == token
  }

  /** The whole table after a registration: other holders of the token are gone, the device's row is replaced. */
  ghost function Registered(t: Table, user: int, req: Request, now: int): Table {
    (set r | r in t && r.token != req.fcmToken && IsDevice(r, user, req.deviceId) != True) +
    {RegisteredRow(RowOf(t, user, req.deviceId), user, req, now)}
  }

  function DisabledRow(r: Row, user: int, device: string, now: int): Row {
    if IsDevice(r, user, device) == True then r.(enabled := false, updatedAt := now) else r
  }

  function Disabled(t: Table, user: int, device: string, now: int): Table {
    set r | r in t :: DisabledRow(r, user, device, now)
  }

  function LegacyRow(token: string, now: int): Row {
    Row(token, now, None, "", "", "android", "", true, 0, 0, 0)
  }

  /** The token a targeted push goes to: that of the device's row, if enabled. */
  ghost function Lookup(t: Table, user: int, device: string): Option<string> {
    match RowOf(t, user, device)
    case Some(r) => if r.enabled then Some(r.token) else None
    case None => None
  }

  /** DELETE FROM devices WHERE the token is held elsewhere. */
  function AfterDelete(t: Table, user: int, req: Request): Table {
    set r | r in t && HoldsTokenElsewhere(r, req.fcmToken, user, req.deviceId) != True
  }

  /** The rows the upserted row has to live with: everything the DELETE left but the device's own row. */
  ghost function Others(t: Table, user: int, req: Request): Table {
    set r | r in AfterDelete(t, user, req) && IsDevice(r, user, req.deviceId) != True
  }

  lemma RowOfUnique(t: Table, user: int, device: string, r: Row)
    requires IsTable(t) && r in t && IsDevice(r, user, device) == True
    ensures RowOf(t, user, device) == Some(r)
  {
  }

  lemma DeleteSparesTheDevice(t: Table, user: int, req: Request)
    requires IsTable(t)
    ensures var left := set r | r in AfterDelete(t, user, req) && IsDevice(r, user, req.deviceId) == True;
            left == match RowOf(t, user, req.deviceId) case Some(r) => {r} case None => {}
    ensures Others(t, user, req) == match RowOf(t, user, req.deviceId)
            case Some(r) => AfterDelete(t, user, req) - {r}
            case None => AfterDelete(t, user, req)
  {
  }

  lemma WhatTheUpsertMeets(t: Table, user: int, req: Request, now: int)
    requires IsTable(t)
    ensures (exists r :: r in Others(t, user, req) && r.token == req.fcmToken) <==>
            req.deviceId == "" && exists r :: r in t && r.userId.None? && r.token == req.fcmToken
    ensures (forall r :: r in Others(t, user, req) ==> r.token != req.fcmToken) ==>
            Others(t, user, req) + {RegisteredRow(RowOf(t, user, req.deviceId), user, req, now)} ==
              Registered(t, user, req, now)
  {
  }

  class Registry {
    var rows: Table

    constructor ()
      ensures rows == {} && IsTable(rows)
    {
      rows := {};
    }

    /**
     Registers a device in one transaction.  On a proper table it succeeds,
     unless the request names no device while a legacy row without a user
     holds its token: that row survives the DELETE because its condition is
     unknown, and the token constraint fails.
     */
    method RegisterDevice(user: int, req: Request, now: int) returns (tokenUpdated: bool, ok: bool)
      requires IsTable(rows)
      modifies this
      ensures ok <==> !(req.deviceId == "" && exists r :: r in old(rows) && r.userId.None? && r.token == req.fcmToken)
      ensures !ok ==> rows == old(rows)
      ensures ok ==> rows == Registered(old(rows), user, req, now)
      ensures IsTable(rows)
      ensures ok ==> Lookup(rows, user, req.deviceId) == Some(req.fcmToken)
      ensures ok ==> (tokenUpdated <==> !HasToken(RowOf(old(rows), user, req.deviceId), req.fcmToken))
    {
      hide And3, Not3, RegisteredRow, Registered, HoldsTokenElsewhere;
      ghost var t := rows;
      var olds := set r | r in rows && IsDevice(r, user, req.deviceId) == True;
      tokenUpdated := true;
      if olds != {} {
        var r :| r in olds;
        RowOfUnique(t, user, req.deviceId, r);
        tokenUpdated := r.token != req.fcmToken;
      }
      assert RowOf(t, user, req.deviceId).Some? ==> RowOf(t, user, req.deviceId).value in olds;
      var kept := AfterDelete(rows, user, req);
      var conflicts := set r | r in kept && IsDevice(r, user, req.deviceId) == True;
      DeleteSparesTheDevice(t, user, req);
      var before: Option<Row> := None;
      if conflicts != {} {
        var r :| r in conflicts;
        RowOfUnique(t, user, req.deviceId, r);
        before := Some(r);
        kept := kept - {r};
      }
      WhatTheUpsertMeets(t, user, req, now);
      if exists r :: r in kept && r.token == req.fcmToken {
        return false, false;
      }
      rows := kept + {RegisteredRow(before, user, req, now)};
      RegistrationKeepsTable(t, user, req, now);
      ok := true;
    }

    method DisableDevice(user: int, device: string, now: int)
      requires IsTable(rows)
      modifies this
      ensures rows == Disabled(old(rows), user, device, now) && IsTable(rows)
      ensures Lookup(rows, user, device) == None
    {
      DisablingKeepsTable(rows, user, device, now);
      rows := Disabled(rows, user, device, now);
    }

    /** The legacy endpoint: one token for everybody. */
    method UpsertDevice(token: string, now: int)
      modifies this
      ensures rows == {LegacyRow(token, now)} && IsTable(rows)
    {
      rows := {LegacyRow(token, now)};
    }

    method LookupDeviceToken(user: int, device: string) returns (token: string)
      requires IsTable(rows)
      ensures token == match Lookup(rows, user, device) case Some(t) => t case None => ""
    {
      var found := set r | r in rows && IsDevice(r, user, device) == True && r.enabled;
      if found == {} {
        assert RowOf(rows, user, device).Some? ==> RowOf(rows, user, device).value !in found;
        return "";
      }
      var r :| r in found;
      RowOfUnique(rows, user, device, r);
      return r.token;
    }

    /** Any registered token, or "" when there is none. */
    method GetDeviceToken() returns (token: string)
      ensures IsAnyToken(rows, token)
      ensures if rows == {} then token == "" else exists r :: r in rows && r.token == token
    {
      if rows == {} {
        return "";
      }
      var r :| r in rows;
      return r.token;
    }
  }

  /** After the legacy endpoint stored a token, registering it works exactly for a request that names a device. */
  method RegisterAfterUpsert(token: string, user: int, deviceId: string, now: int) returns (ok: bool)
    ensures ok <==> deviceId != ""
  {
    var registry := new Registry();
    registry.UpsertDevice(token, now);
    assert LegacyRow(token, now) in registry.rows;
    var updated;
    updated, ok := registry.RegisterDevice(user, Request(deviceId, token, "", "", ""), now);
  }

  ghost predicate IsAnyToken(t: Table, token: string) {
    if t == {} then token == "" else exists r :: r in t && r.token == token
  }

  lemma RegistrationKeepsTable(t: Table, user: int, req: Request, now: int)
    requires IsTable(t)
    ensures IsTable(Registered(t, user, req, now))
    ensures Lookup(Registered(t, user, req, now), user, req.deviceId) == Some(req.fcmToken)
  {
    var row := RegisteredRow(RowOf(t, user, req.deviceId), user, req, now);
    assert IsDevice(row, user, req.deviceId) == True;
    assert row in Registered(t, user, req, now);
  }

  /**
   The device's row after a registration carries what the request says, the
   platform "android" by default.  It was created when the device first came, and
   its token dates from now unless it had that token already.
   */
  lemma RegisteredDevice(t: Table, user: int, req: Request, now: int)
    requires IsTable(t)
    ensures RowOf(Registered(t, user, req, now), user, req.deviceId).Some?
    ensures var before := RowOf(t, user, req.deviceId);
            var r := RowOf(Registered(t, user, req, now), user, req.deviceId).value;
            && r.token == req.fcmToken && r.userId == Some(user) && r.deviceId == req.deviceId && r.enabled
            && r.deviceName == req.deviceName && r.appVersion == req.appVersion
            && r.platform == (if req.platform != "" then req.platform else "android")
            && r.updatedAt == now && r.lastSeenAt == now
            && (if before.Some? then r.createdAt == before.value.createdAt else r.createdAt == now)
            && (before.Some? && before.value.token == req.fcmToken ==> r.tokenUpdatedAt == before.value.tokenUpdatedAt)
            && (before.None? || before.value.token != req.fcmToken ==> r.tokenUpdatedAt == now)
  {
    RegistrationKeepsTable(t, user, req, now);
    var row := RegisteredRow(RowOf(t, user, req.deviceId), user, req, now);
    RowOfUnique(Registered(t, user, req, now), user, req.deviceId, row);
  }

  /** Disabling a device keeps all of its row but the flag and the time, and every other row. */
  lemma DisabledDevice(t: Table, user: int, device: string, now: int, r: Row)
    requires r in t
    ensures IsDevice(r, user, device) == True ==>
            r.(enabled := false, updatedAt := now) in Disabled(t, user, device, now)
    ensures IsDevice(r, user, device) != True ==> r in Disabled(t, user, device, now)
    ensures forall s :: s in Disabled(t, user, device, now) ==> exists r0 :: r0 in t && r0.token == s.token
  {
    assert DisabledRow(r, user, device, now) in Disabled(t, user, device, now);
  }

  lemma DisablingKeepsTable(t: Table, user: int, device: string, now: int)
    requires IsTable(t)
    ensures IsTable(Disabled(t, user, device, now))
    ensures Lookup(Disabled(t, user, device, now), user, device) == None
  {
    var after := Disabled(t, user, device, now);
    forall r, s | r in after && s in after &&
      (r.token == s.token || (r.userId.Some? && r.userId == s.userId && r.deviceId == s.deviceId))
      ensures r == s
    {
      var r0 :| r0 in t && r == DisabledRow(r0, user, device, now);
      var s0 :| s0 in t && s == DisabledRow(s0, user, device, now);
      assert r0 == s0;
    }
  }

  // -------------------------------------------------------------------- runs

  predicate IsDeviceIdChar(c: char) {
    'A' <= c <= 'Z' || 'a' <= c <= 'z' || '0' <= c <= '9' || c in "._:-"
  }

  /** What the registration endpoint lets through. */
  predicate IsAccepted(req: Request) {
    && 1 <= |req.deviceId| <= 128 && (forall i :: 0 <= i < |req.deviceId| ==> IsDeviceIdChar(req.deviceId[i]))
    && 1 <= |req.fcmToken| <= 4096
  }

  datatype Event =
    | Register(user: int, req: Request, now: int)
    | Disable(user: int, device: string, now: int)
    | Legacy(token: string, now: int)

  ghost predicate AreAccepted(events: seq<Event>) {
    forall i :: 0 <= i < |events| && events[i].Register? ==> IsAccepted(events[i].req)
  }

  ghost function Apply(t: Table, e: Event): Table {
    match e
    case Register(user, req, now) => Registered(t, user, req, now)
    case Disable(user, device, now) => Disabled(t, user, device, now)
    case Legacy(token, now) => {LegacyRow(token, now)}
  }

  ghost function Run(events: seq<Event>): Table {
    if events == [] then {} else Apply(Run(events[..|events| - 1]), events[|events| - 1])
  }

  /**
   The token a device may be pushed to, read off the history alone: the one it
   registered last, unless it was disabled since, or the token was registered
   by another device since, or the legacy endpoint cleared the table.
   */
  function HistoryToken(events: seq<Event>, user: int, device: string): Option<string> {
    if events == [] then None
    else
      var before := HistoryToken(events[..|events| - 1], user, device);
      match events[|events| - 1]
      case Register(u, req, _) =>
        if u == user && req.deviceId == device then Some(req.fcmToken)
        else if before == Some(req.fcmToken) then None
        else before
      case Disable(u, d, _) => if u == user && d == device then None else before
      case Legacy(_, _) => None
  }

  /** One event moves every device's token the way the history says. */
  lemma StepFollowsHistory(t: Table, e: Event, user: int, device: string)
    requires IsTable(t) && (e.Register? ==> e.req.deviceId != "")
    ensures IsTable(Apply(t, e))
    ensures Lookup(Apply(t, e), user, device) ==
            match e
            case Register(u, req, _) =>
              if u == user && req.deviceId == device then Some(req.fcmToken)
              else if Lookup(t, user, device) == Some(req.fcmToken) then None
              else Lookup(t, user, device)
            case Disable(u, d, _) => if u == user && d == device then None else Lookup(t, user, device)
            case Legacy(_, _) => None
  {
    var after := Apply(t, e);
    match e
    case Register(u, req, now) =>
      RegistrationKeepsTable(t, u, req, now);
      if !(u == user && req.deviceId == device) && RowOf(t, user, device).Some? {
        var r := RowOf(t, user, device).value;
        if r.token != req.fcmToken {
          assert r in after;
          RowOfUnique(after, user, device, r);
        }
      }
    case Disable(u, d, now) =>
      DisablingKeepsTable(t, u, d, now);
      if RowOf(t, user, device).Some? {
        var r := RowOf(t, user, device).value;
        assert DisabledRow(r, u, d, now) in after;
        RowOfUnique(after, user, device, DisabledRow(r, u, d, now));
      }
    case Legacy(token, now) =>
  }

  /** After any history the constraints hold, and each device's push token is the one the history gives it. */
  lemma {:induction false} RunFollowsHistory(events: seq<Event>, user: int, device: string)
    requires AreAccepted(events)
    ensures IsTable(Run(events))
    ensures Lookup(Run(events), user, device) == HistoryToken(events, user, device)
  {
    if events != [] {
      var front := events[..|events| - 1];
      RunFollowsHistory(front, user, device);
      StepFollowsHistory(Run(front), events[|events| - 1], user, device);
    }
  }
}
