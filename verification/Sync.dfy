/**
 Merging the local event files with a remote object store: the plan, the
 conflict report, uploads, and downloads stamped with their provenance.
 */
module Sync {
  import Text
  import opened Lines
  import opened Provenance
  import opened Wrappers

  type Files = map<string, string>

  /** Hex of a SHA-1 sum. */
  type Digest = string -> string

  // ----------------------------------------------------------------- events

  datatype Ids = Ids(sessionId: string, eventId: string, createdAt: string)

  function TextField(j: Json, m: Fields, name: string): Option<string> {
    if name in m then j.text(m[name]) else Some("")
  }

  /** Decoding an object into the three indexed fields; a field of another type is an error. */
  function IdsOf(j: Json, m: Fields): Option<Ids> {
    var session := TextField(j, m, "session_id");
    var event := TextField(j, m, "event_id");
    var created := TextField(j, m, "created_at");
    if session.None? || event.None? || created.None? then None
    else Some(Ids(session.value, event.value, created.value))
  }

  /** What the readers index a line under; a null line decodes to empty fields. */
  function EventOf(j: Json, line: string): Option<Ids> {
    if IsBlank(line) then None
    else
      match j.parse(line)
      case Bad => None
      case Null => Some(Ids("", "", ""))
      case Object(m) => IdsOf(j, m)
  }

  function DedupKey(digest: Digest, sessionId: string, eventId: string): string {
    digest(sessionId + ":" + eventId)
  }

  function KeyOf(j: Json, digest: Digest, line: string): Option<string> {
    match EventOf(j, line)
    case Some(ids) => Some(DedupKey(digest, ids.sessionId, ids.eventId))
    case None => None
  }

  /** The last line with a given key: later lines replace earlier ones. */
  function LastLine(j: Json, digest: Digest, lines: seq<string>, key: string): (r: Option<string>)
    ensures r.Some? ==> r.value in lines && KeyOf(j, digest, r.value) == Some(key)
  {
    if lines == [] then None
    else
      var last := lines[|lines| - 1];
      if KeyOf(j, digest, last) == Some(key) then Some(last) else LastLine(j, digest, lines[..|lines| - 1], key)
  }

  datatype Event = Event(ids: Ids, raw: string)

  type Index = map<string, Event>

  ghost predicate IsIndexOf(j: Json, digest: Digest, lines: seq<string>, index: Index) {
    forall key :: match LastLine(j, digest, lines, key)
                  case Some(line) => key in index && index[key] == Event(EventOf(j, line).value, line)
                  case None => key !in index
  }

  /** The loop shared by readSyncEvents and parseRemoteEvents. */
  method IndexEvents(j: Json, digest: Digest, lines: seq<string>) returns (events: Index)
    ensures IsIndexOf(j, digest, lines, events)
  {
    events := map[];
    for i := 0 to |lines|
      invariant IsIndexOf(j, digest, lines[..i], events)
    {
      var line := lines[i];
      assert lines[..i + 1][..i] == lines[..i];
      match EventOf(j, line)
      case None =>
      case Some(ids) => events := events[DedupKey(digest, ids.sessionId, ids.eventId) := Event(ids, line)];
    }
    assert lines[..|lines|] == lines;
  }

  method ReadSyncEvents(j: Json, digest: Digest, data: string) returns (events: Index)
    ensures IsIndexOf(j, digest, Scanned(Split(data)), events)
  {
    events := IndexEvents(j, digest, Scanned(Split(data)));
  }

  method ParseRemoteEvents(j: Json, digest: Digest, data: string) returns (events: Index)
    ensures IsIndexOf(j, digest, Split(data), events)
  {
    var lines := SplitLines(data);
    events := IndexEvents(j, digest, lines);
  }

  // ------------------------------------------------------ keys by field texts

  /** The text of a line's field: "" when it is absent or the line is null, nothing when it is no text. */
  ghost function FieldText(j: Json, line: string, name: string): Option<string> {
    match j.parse(line)
    case Bad => None
    case Null => Some("")
    case Object(m) => if name in m then j.text(m[name]) else Some("")
  }

  /** A line the readers index: not blank, and its three fields have texts. */
  ghost predicate IsEventLine(j: Json, line: string) {
    && !IsBlank(line)
    && FieldText(j, line, "session_id").Some?
    && FieldText(j, line, "event_id").Some?
    && FieldText(j, line, "created_at").Some?
  }

  /** Session and event id of a line, joined by a colon. */
  ghost function PairText(j: Json, line: string): string
    requires IsEventLine(j, line)
  {
    FieldText(j, line, "session_id").value + ":" + FieldText(j, line, "event_id").value
  }

  ghost predicate IsCollisionFree(digest: Digest) {
    forall a, b :: digest(a) == digest(b) ==> a == b
  }

  /** The decoded ids are the texts of the fields, and the key is the digest of session and event id. */
  lemma KeyByFields(j: Json, digest: Digest, line: string)
    ensures EventOf(j, line).Some? <==> IsEventLine(j, line)
    ensures KeyOf(j, digest, line).Some? <==> IsEventLine(j, line)
    ensures IsEventLine(j, line) ==>
              var ids := EventOf(j, line).value;
              && FieldText(j, line, "session_id") == Some(ids.sessionId)
              && FieldText(j, line, "event_id") == Some(ids.eventId)
              && FieldText(j, line, "created_at") == Some(ids.createdAt)
              && KeyOf(j, digest, line) == Some(digest(PairText(j, line)))
  {
  }

  lemma PairExact(s: string, e: string, t: string, f: string)
    requires ':' !in s && ':' !in t
    ensures s + ":" + e == t + ":" + f <==> s == t && e == f
  {
    var x, y := s + ":" + e, t + ":" + f;
    if x == y {
      forall k | 0 <= k < |s| ensures x[k] != ':' { assert x[k] == s[k]; }
      forall k | 0 <= k < |t| ensures x[k] != ':' { assert y[k] == t[k]; }
      assert x[|s|] == ':' && y[|t|] == ':';
      assert s == x[..|s|] && t == y[..|t|] && e == x[|s| + 1..] && f == y[|t| + 1..];
    }
  }

  /**
   Without collisions two event lines have one key exactly when session and event
   id, joined by a colon, are the same text; for session ids without a colon,
   exactly when both ids are equal.
   */
  lemma SameKeyIff(j: Json, digest: Digest, a: string, b: string)
    requires IsCollisionFree(digest) && IsEventLine(j, a) && IsEventLine(j, b)
    ensures KeyOf(j, digest, a) == KeyOf(j, digest, b) <==> PairText(j, a) == PairText(j, b)
    ensures var s, t := FieldText(j, a, "session_id").value, FieldText(j, b, "session_id").value;
            ':' !in s && ':' !in t ==>
              (KeyOf(j, digest, a) == KeyOf(j, digest, b) <==>
                 s == t && FieldText(j, a, "event_id") == FieldText(j, b, "event_id"))
  {
    KeyByFields(j, digest, a);
    KeyByFields(j, digest, b);
    var s, t := FieldText(j, a, "session_id").value, FieldText(j, b, "session_id").value;
    hide KeyOf, FieldText;
    if ':' !in s && ':' !in t {
      PairExact(s, FieldText(j, a, "event_id").value, t, FieldText(j, b, "event_id").value);
    }
  }

  /** With a colon in a session id, different events share a key. */
  lemma ColonsShareKeys(j: Json, digest: Digest, a: string, b: string)
    requires IsEventLine(j, a) && IsEventLine(j, b)
    requires FieldText(j, a, "session_id") == Some("s:e") && FieldText(j, a, "event_id") == Some("f")
    requires FieldText(j, b, "session_id") == Some("s") && FieldText(j, b, "event_id") == Some("e:f")
    ensures KeyOf(j, digest, a) == KeyOf(j, digest, b)
  {
    KeyByFields(j, digest, a);
    KeyByFields(j, digest, b);
    assert "s:e" + ":" + "f" == "s" + ":" + "e:f";
  }

  /** The i-th line is an event line, and no later one has its session and event id. */
  ghost predicate IsLastOfPair(j: Json, lines: seq<string>, i: nat) {
    && i < |lines| && IsEventLine(j, lines[i])
    && forall k :: i < k < |lines| && IsEventLine(j, lines[k]) ==> PairText(j, lines[k]) != PairText(j, lines[i])
  }

  lemma LastOfOneMorePair(j: Json, front: seq<string>, last: string, i: nat)
    requires IsLastOfPair(j, front, i)
    requires IsEventLine(j, last) ==> PairText(j, last) != PairText(j, front[i])
    ensures IsLastOfPair(j, front + [last], i)
  {
    hide IsEventLine, PairText;
  }

  /** What the index finds under a key is the last line of the pair the key stands for. */
  lemma {:induction false} FoundIsLastOfPair(j: Json, digest: Digest, lines: seq<string>, key: string)
    requires IsCollisionFree(digest) && LastLine(j, digest, lines, key).Some?
    ensures exists i: nat :: IsLastOfPair(j, lines, i) && lines[i] == LastLine(j, digest, lines, key).value
    ensures var found := LastLine(j, digest, lines, key).value;
            IsEventLine(j, found) && digest(PairText(j, found)) == key
  {
    hide KeyOf, IsEventLine, PairText;
    var n := |lines| - 1;
    var front, last := lines[..n], lines[n];
    assert lines == front + [last];
    KeyByFields(j, digest, last);
    if KeyOf(j, digest, last) == Some(key) {
      assert IsLastOfPair(j, lines, n) by { LastIsLast(j, lines); }
    } else {
      FoundIsLastOfPair(j, digest, front, key);
      var i: nat :| IsLastOfPair(j, front, i) && front[i] == LastLine(j, digest, front, key).value;
      LastOfOneMorePair(j, front, last, i);
    }
  }

  lemma LastIsLast(j: Json, lines: seq<string>)
    requires lines != [] && IsEventLine(j, lines[|lines| - 1])
    ensures IsLastOfPair(j, lines, |lines| - 1)
  {
  }

  lemma {:induction false} EventLineIsFound(j: Json, digest: Digest, lines: seq<string>, i: nat)
    requires i < |lines| && IsEventLine(j, lines[i])
    ensures LastLine(j, digest, lines, digest(PairText(j, lines[i]))).Some?
  {
    hide KeyOf, IsEventLine, PairText;
    KeyByFields(j, digest, lines[i]);
    if i < |lines| - 1 {
      EventLineIsFound(j, digest, lines[..|lines| - 1], i);
    }
  }

  lemma LastLineOfPair(j: Json, digest: Digest, lines: seq<string>, key: string)
    requires IsCollisionFree(digest)
    ensures LastLine(j, digest, lines, key).Some? ==>
              exists i: nat :: IsLastOfPair(j, lines, i) && lines[i] == LastLine(j, digest, lines, key).value
    ensures forall i: nat :: IsLastOfPair(j, lines, i) && digest(PairText(j, lines[i])) == key ==>
              LastLine(j, digest, lines, key) == Some(lines[i])
  {
    hide KeyOf, IsEventLine, PairText, LastLine;
    if LastLine(j, digest, lines, key).Some? { FoundIsLastOfPair(j, digest, lines, key); }
    forall i: nat | IsLastOfPair(j, lines, i) && digest(PairText(j, lines[i])) == key
      ensures LastLine(j, digest, lines, key) == Some(lines[i])
    {
      EventLineIsFound(j, digest, lines, i);
      FoundIsLastOfPair(j, digest, lines, key);
      var k: nat :| IsLastOfPair(j, lines, k) && lines[k] == LastLine(j, digest, lines, key).value;
      assert PairText(j, lines[k]) == PairText(j, lines[i]);
      assert i == k;
    }
  }

  /**
   An index holds the last line of every pair of session and event id that
   occurs, with the texts of its fields, and exactly one entry per pair.
   */
  lemma IndexIsByPair(j: Json, digest: Digest, lines: seq<string>, index: Index)
    requires IsIndexOf(j, digest, lines, index) && IsCollisionFree(digest)
    ensures forall key :: key in index ==>
              var e := index[key];
              && (exists i: nat :: IsLastOfPair(j, lines, i) && e.raw == lines[i])
              && FieldText(j, e.raw, "session_id") == Some(e.ids.sessionId)
              && FieldText(j, e.raw, "event_id") == Some(e.ids.eventId)
              && FieldText(j, e.raw, "created_at") == Some(e.ids.createdAt)
    ensures forall i: nat :: IsLastOfPair(j, lines, i) ==> exists key :: key in index && index[key].raw == lines[i]
    ensures forall key, other | key in index && other in index &&
              IsEventLine(j, index[key].raw) && IsEventLine(j, index[other].raw) &&
              PairText(j, index[key].raw) == PairText(j, index[other].raw) :: key == other
  {
    hide KeyOf, IsEventLine, PairText, FieldText, EventOf;
    forall key | key in index
      ensures IsEventLine(j, index[key].raw) && key == digest(PairText(j, index[key].raw))
      ensures exists i: nat :: IsLastOfPair(j, lines, i) && index[key].raw == lines[i]
      ensures EventOf(j, index[key].raw) == Some(index[key].ids)
    {
      LastLineOfPair(j, digest, lines, key);
      KeyByFields(j, digest, index[key].raw);
    }
    forall line { KeyByFields(j, digest, line); }
    forall i: nat | IsLastOfPair(j, lines, i) ensures exists key :: key in index && index[key].raw == lines[i] {
      LastLineOfPair(j, digest, lines, digest(PairText(j, lines[i])));
      assert digest(PairText(j, lines[i])) in index;
    }
  }

  // -------------------------------------------------------------- conflicts

  /** The keys a file's lines are indexed under. */
  function KeysOf(j: Json, digest: Digest, lines: seq<string>): set<string> {
    set line | line in lines && KeyOf(j, digest, line).Some? :: KeyOf(j, digest, line).value
  }

  /** Both lists of lines hold an event under the key, with different content. */
  predicate DiffersUnder(j: Json, digest: Digest, here: seq<string>, there: seq<string>, key: string) {
    var l, r := LastLine(j, digest, here, key), LastLine(j, digest, there, key);
    l.Some? && r.Some? && !SameEventContent(j, l.value, r.value)
  }

  /** Both copies of a file do: the local one as the scanner reads it. */
  predicate InConflict(j: Json, digest: Digest, local: string, remote: string, key: string) {
    DiffersUnder(j, digest, Scanned(Split(local)), Split(remote), key)
  }

  function ConflictsIn(j: Json, digest: Digest, local: string, remote: string): set<string> {
    set key | key in KeysOf(j, digest, Split(remote)) && InConflict(j, digest, local, remote, key)
  }

  /** The last lines of the pair, here and there, differ in content. */
  ghost predicate PairDiffers(j: Json, here: seq<string>, there: seq<string>, pair: string, i: nat, k: nat) {
    && IsLastOfPair(j, here, i) && IsLastOfPair(j, there, k)
    && PairText(j, here[i]) == pair && PairText(j, there[k]) == pair
    && !SameEventContent(j, here[i], there[k])
  }

  ghost predicate SomePairDiffers(j: Json, here: seq<string>, there: seq<string>, pair: string) {
    exists i: nat, k: nat :: PairDiffers(j, here, there, pair, i, k)
  }

  /** A conflict is a pair of session and event id that occurs on both sides and differs there. */
  lemma ConflictIsByPair(j: Json, digest: Digest, local: string, remote: string, pair: string)
    requires IsCollisionFree(digest)
    ensures InConflict(j, digest, local, remote, digest(pair)) <==>
            SomePairDiffers(j, Scanned(Split(local)), Split(remote), pair)
  {
    hide SomePairDiffers, DiffersUnder;
    DiffersIff(j, digest, Scanned(Split(local)), Split(remote), pair);
  }

  lemma DiffersIff(j: Json, digest: Digest, here: seq<string>, there: seq<string>, pair: string)
    requires IsCollisionFree(digest)
    ensures DiffersUnder(j, digest, here, there, digest(pair)) <==> SomePairDiffers(j, here, there, pair)
  {
    hide PairDiffers, SameEventContent, KeyOf;
    if DiffersUnder(j, digest, here, there, digest(pair)) {
      ConflictHasPair(j, digest, here, there, pair);
    }
    if i: nat, k: nat :| PairDiffers(j, here, there, pair, i, k) {
      PairIsInConflict(j, digest, here, there, pair, i, k);
    }
  }

  lemma ConflictHasPair(j: Json, digest: Digest, here: seq<string>, there: seq<string>, pair: string)
    requires IsCollisionFree(digest)
    requires LastLine(j, digest, here, digest(pair)).Some? && LastLine(j, digest, there, digest(pair)).Some?
    requires !SameEventContent(j, LastLine(j, digest, here, digest(pair)).value,
                               LastLine(j, digest, there, digest(pair)).value)
    ensures exists i: nat, k: nat :: PairDiffers(j, here, there, pair, i, k)
  {
    hide IsEventLine, PairText, SameEventContent, LastLine;
    FoundIsLastOfPair(j, digest, here, digest(pair));
    FoundIsLastOfPair(j, digest, there, digest(pair));
    var i: nat :| IsLastOfPair(j, here, i) && here[i] == LastLine(j, digest, here, digest(pair)).value;
    var k: nat :| IsLastOfPair(j, there, k) && there[k] == LastLine(j, digest, there, digest(pair)).value;
    assert PairDiffers(j, here, there, pair, i, k);
  }

  lemma PairIsInConflict(j: Json, digest: Digest, here: seq<string>, there: seq<string>, pair: string, i: nat, k: nat)
    requires IsCollisionFree(digest) && PairDiffers(j, here, there, pair, i, k)
    ensures LastLine(j, digest, here, digest(pair)) == Some(here[i])
    ensures LastLine(j, digest, there, digest(pair)) == Some(there[k])
    ensures !SameEventContent(j, here[i], there[k])
  {
    hide IsEventLine, PairText, SameEventContent, LastLine;
    LastLineOfPair(j, digest, here, digest(pair));
    LastLineOfPair(j, digest, there, digest(pair));
  }

  lemma {:induction false} LastLineIsKeyed(j: Json, digest: Digest, lines: seq<string>, key: string)
    ensures LastLine(j, digest, lines, key).Some? <==> key in KeysOf(j, digest, lines)
  {
    if lines != [] {
      var front, last := lines[..|lines| - 1], lines[|lines| - 1];
      LastLineIsKeyed(j, digest, front, key);
      assert lines == front + [last];
    }
  }

  /** A plain file name of the events directory: what the index's glob matches. */
  predicate IsIndexed(name: string) {
    |name| >= 6 && name[|name| - 6..] == ".jsonl" && '/' !in name
  }

  lemma IndexedIff(name: string)
    ensures IsIndexed(name) <==> exists stem :: name == stem + ".jsonl" && '/' !in stem
  {
    if IsIndexed(name) {
      assert name == name[..|name| - 6] + ".jsonl";
    }
    forall stem | name == stem + ".jsonl" && '/' !in stem ensures IsIndexed(name) {
      assert name[|name| - 6..] == ".jsonl";
    }
  }

  /** Object and event key of every conflict between the two stores. */
  ghost function Conflicts(j: Json, digest: Digest, local: Files, remote: Files): set<(string, string)> {
    set name, key | name in remote && name in local && IsIndexed(name) &&
      key in ConflictsIn(j, digest, local[name], remote[name]) :: (name, key)
  }

  /** Comparing a file with itself finds nothing, although one side loses its carriage returns. */
  lemma {:induction false} NoConflictWithItself(j: Json, digest: Digest, data: string, key: string)
    requires IsJson(j)
    ensures !InConflict(j, digest, data, data, key)
  {
    ScannedLastLine(j, digest, Split(data), key);
    var r := LastLine(j, digest, Split(data), key);
    if r.Some? { SameWithoutCR(j, digest, r.value); }
  }

  lemma SameWithoutCR(j: Json, digest: Digest, line: string)
    requires IsJson(j)
    ensures KeyOf(j, digest, DropCR(line)) == KeyOf(j, digest, line)
    ensures KeyOf(j, digest, line).Some? ==> SameEventContent(j, DropCR(line), line)
  {
    hide TrimSpace, IsBlank, DropCR, IdsOf, EncodesJson, StampsJson;
    assert j.parse(DropCR(line)) == j.parse(line);
    if j.parse(line).Object? {
      SameContentIsSamePayload(j, DropCR(line), line);
    }
  }

  lemma {:induction false} ScannedLastLine(j: Json, digest: Digest, lines: seq<string>, key: string)
    requires IsJson(j)
    ensures LastLine(j, digest, Scanned(lines), key) ==
            match LastLine(j, digest, lines, key) case Some(line) => Some(DropCR(line)) case None => None
  {
    if lines != [] {
      var front, last := lines[..|lines| - 1], lines[|lines| - 1];
      assert Scanned(lines)[..|lines| - 1] == Scanned(front);
      ScannedLastLine(j, digest, front, key);
      SameWithoutCR(j, digest, last);
    }
  }

  // -------------------------------------------------- downloads against their source

  function EmptyIdsKey(digest: Digest): string {
    DedupKey(digest, "", "")
  }

  /**
   A null line is the last one indexed without ids, after an object line
   without ids.  Readers index the null line; the download drops it.
   */
  predicate HasNullShadow(j: Json, digest: Digest, data: string) {
    var last := LastLine(j, digest, Split(data), EmptyIdsKey(digest));
    && last.Some? && j.parse(last.value) == Null
    && LastLine(j, digest, ObjectLines(j, Split(data)), EmptyIdsKey(digest)).Some?
  }

  lemma StampKeepsField(j: Json, m: Fields, stamp: string, name: string)
    requires EncodesJson(j) && name != PROVENANCE_FIELD
    ensures TextField(j, Compacted(j, m[PROVENANCE_FIELD := stamp]), name) == TextField(j, m, name)
  {
  }

  lemma StampKeepsIds(j: Json, m: Fields, stamp: string)
    requires EncodesJson(j)
    ensures IdsOf(j, Compacted(j, m[PROVENANCE_FIELD := stamp])) == IdsOf(j, m)
  {
    hide TextField, EncodesJson, Compacted;
    assert |PROVENANCE_FIELD| == 18 && |"session_id"| == 10 && |"event_id"| == 8 && |"created_at"| == 10;
    StampKeepsField(j, m, stamp, "session_id");
    StampKeepsField(j, m, stamp, "event_id");
    StampKeepsField(j, m, stamp, "created_at");
  }

  lemma StampKeepsKey(j: Json, digest: Digest, line: string, info: Info)
    requires IsJson(j) && IsObjectLine(j, line)
    ensures KeyOf(j, digest, Stamp(j, line, info)) == KeyOf(j, digest, line)
  {
    hide Stamp, IdsOf, EncodesJson, ParsesJson, StampsJson, Compacted;
    StampIsEncoded(j, line, info);
    StampKeepsIds(j, j.parse(line).fields, j.writeInfo(info));
  }

  lemma {:induction false} StampedLastLine(j: Json, digest: Digest, lines: seq<string>, info: Info, key: string)
    requires IsJson(j) && forall l :: l in lines ==> IsObjectLine(j, l)
    ensures LastLine(j, digest, Stamped(j, lines, info), key) ==
            match LastLine(j, digest, lines, key) case Some(line) => Some(Stamp(j, line, info)) case None => None
  {
    hide Stamp, IsJson, KeyOf, IsObjectLine;
    if lines != [] {
      var front, last := lines[..|lines| - 1], lines[|lines| - 1];
      assert Stamped(j, lines, info)[..|lines| - 1] == Stamped(j, front, info);
      StampedLastLine(j, digest, front, info, key);
      StampKeepsKey(j, digest, last, info);
    }
  }

  /** The last object line under a key is the last line under it, unless that one is null. */
  lemma {:induction false} LastObjectLine(j: Json, digest: Digest, lines: seq<string>, key: string)
    ensures var last, obj := LastLine(j, digest, lines, key), LastLine(j, digest, ObjectLines(j, lines), key);
            && (obj.Some? ==> last.Some?)
            && (last.Some? && j.parse(last.value).Object? ==> obj == last)
            && (last.Some? && !j.parse(last.value).Object? ==>
                 j.parse(last.value) == Null && key == EmptyIdsKey(digest))
  {
    if lines != [] {
      var front, last := lines[..|lines| - 1], lines[|lines| - 1];
      LastObjectLine(j, digest, front, key);
      assert lines == front + [last];
      LastOfOneMore(j, digest, front, last, key);
    }
  }

  /** The last object line of `source` under the key differs from the last line of `other` under it. */
  predicate ObjectInConflict(j: Json, digest: Digest, source: string, other: string, key: string) {
    var l, r := LastLine(j, digest, ObjectLines(j, Split(source)), key), LastLine(j, digest, Split(other), key);
    l.Some? && r.Some? && !SameEventContent(j, l.value, r.value)
  }

  function ObjectConflicts(j: Json, digest: Digest, source: string, other: string): set<string> {
    set key | key in KeysOf(j, digest, Split(other)) && ObjectInConflict(j, digest, source, other, key)
  }

  lemma ConflictIsKeyed(j: Json, digest: Digest, local: string, remote: string, key: string)
    ensures key in ConflictsIn(j, digest, local, remote) <==> InConflict(j, digest, local, remote, key)
    ensures key in ObjectConflicts(j, digest, local, remote) <==> ObjectInConflict(j, digest, local, remote, key)
  {
    LastLineIsKeyed(j, digest, Split(remote), key);
  }

  /** Comparing a downloaded file is comparing the object lines it came from: stamps never count. */
  lemma DownloadConflicts(j: Json, digest: Digest, source: string, info: Info, other: string)
    requires IsJson(j) && info.source != ""
    ensures ConflictsIn(j, digest, Tagged(j, source, info), other) == ObjectConflicts(j, digest, source, other)
  {
    hide InConflict, ObjectInConflict, Tagged, IsJson, KeysOf, Split;
    forall key
      ensures key in ConflictsIn(j, digest, Tagged(j, source, info), other) <==>
              key in ObjectConflicts(j, digest, source, other)
    {
      DownloadConflict(j, digest, source, info, other, key);
      ConflictIsKeyed(j, digest, Tagged(j, source, info), other, key);
      ConflictIsKeyed(j, digest, source, other, key);
    }
  }

  lemma DownloadConflict(j: Json, digest: Digest, source: string, info: Info, other: string, key: string)
    requires IsJson(j) && info.source != ""
    ensures InConflict(j, digest, Tagged(j, source, info), other, key) <==>
            ObjectInConflict(j, digest, source, other, key)
  {
    hide Stamp, IsJson, KeyOf, Tagged, SameEventContent, Split;
    var objects := ObjectLines(j, Split(source));
    TaggedLines(j, source, info);
    ScannedLastLine(j, digest, Split(Tagged(j, source, info)), key);
    StampedLastLine(j, digest, objects, info, key);
    var obj, last := LastLine(j, digest, objects, key), LastLine(j, digest, Split(other), key);
    if obj.Some? && last.Some? {
      KeyedLineParses(j, digest, last.value);
      StampedCR(j, obj.value, last.value, info);
    }
  }

  lemma KeyedLineParses(j: Json, digest: Digest, line: string)
    requires KeyOf(j, digest, line).Some?
    ensures !j.parse(line).Bad?
  {
  }

  /** The scanned stamped line compares with any indexed line as its source does. */
  lemma StampedCR(j: Json, obj: string, last: string, info: Info)
    requires IsJson(j) && IsObjectLine(j, obj) && !j.parse(last).Bad? && info.source != ""
    ensures SameEventContent(j, DropCR(Stamp(j, obj, info)), last) <==> SameEventContent(j, obj, last)
  {
    var stamp := Stamp(j, obj, info);
    hide Stamp, SameEventContent, Payload;
    StampIsAuthoritativeAndTransparent(j, obj, info);
    StampIsEncoded(j, obj, info);
    assert j.parse(DropCR(stamp)) == j.parse(stamp);
    SameContentIsSamePayload(j, stamp, obj);
    if j.parse(last) == Null {
      ObjectDiffersFromNull(j, DropCR(stamp), last);
      ObjectDiffersFromNull(j, obj, last);
    } else {
      SameContentIsSamePayload(j, DropCR(stamp), last);
      SameContentIsSamePayload(j, obj, last);
    }
  }

  /** An object compared with itself conflicts exactly under a null shadow, and then in one place. */
  lemma OwnConflicts(j: Json, digest: Digest, data: string)
    requires IsJson(j)
    ensures ObjectConflicts(j, digest, data, data) ==
            if HasNullShadow(j, digest, data) then {EmptyIdsKey(digest)} else {}
  {
    hide ObjectInConflict, HasNullShadow, EmptyIdsKey, IsJson, KeysOf, Split;
    forall key ensures key in ObjectConflicts(j, digest, data, data) <==>
                       HasNullShadow(j, digest, data) && key == EmptyIdsKey(digest)
    {
      OwnConflict(j, digest, data, key);
      ConflictIsKeyed(j, digest, data, data, key);
    }
  }

  lemma OwnConflict(j: Json, digest: Digest, data: string, key: string)
    requires IsJson(j)
    ensures ObjectInConflict(j, digest, data, data, key) <==>
            HasNullShadow(j, digest, data) && key == EmptyIdsKey(digest)
  {
    hide IsJson, KeyOf, SameEventContent, Split;
    var lines, objects := Split(data), ObjectLines(j, Split(data));
    LastObjectLine(j, digest, lines, key);
    var last, obj := LastLine(j, digest, lines, key), LastLine(j, digest, objects, key);
    if obj.Some? {
      if j.parse(last.value) == Null {
        ObjectDiffersFromNull(j, obj.value, last.value);
      } else {
        SameContentIsSamePayload(j, obj.value, obj.value);
      }
    }
  }

  // ------------------------------------------------------------------- plans

  datatype Decision = Decision(allow: bool, reason: string)

  /** pathOf gives the local file an object's key names, relative to the events directory. */
  datatype Config = Config(
    remote: string, peer: string, dryRun: bool, filter: Option<Info -> Decision>, pathOf: string -> string)

  /** A plain event file's name is its own path; other keys may name any file, a plain event file among them. */
  ghost predicate KeepsNames(pathOf: string -> string) {
    forall name :: IsIndexed(name) ==> pathOf(name) == name
  }

  /** The origin recorded for an object; the in-memory store reports no content tags. */
  function InfoOf(cfg: Config, name: string, at: string): Info {
    Info(REMOTE, cfg.remote, cfg.peer, name, "", at)
  }

  /** The configured filter's verdict; without a filter every origin is allowed. */
  function Allows(cfg: Config, name: string, at: string): bool {
    cfg.filter.None? || cfg.filter.value(InfoOf(cfg, name, at)).allow
  }

  predicate InLocalIndex(local: Files, name: string) {
    name in local && IsIndexed(name)
  }

  function Uploads(local: Files, remote: Files): set<string> {
    set name | name in local && IsIndexed(name) && name !in remote
  }

  function Refused(cfg: Config, at: string, local: Files, remote: Files): set<string> {
    set name | name in remote && !InLocalIndex(local, name) && !Allows(cfg, name, at)
  }

  /** The remote-only, allowed objects that hold at least one object line. */
  function Downloads(j: Json, cfg: Config, at: string, local: Files, remote: Files): set<string> {
    set name | name in remote && !InLocalIndex(local, name) && Allows(cfg, name, at) &&
      ObjectLines(j, Split(remote[name])) != []
  }

  ghost predicate AreDistinct<T>(s: seq<T>) {
    forall i, k :: 0 <= i < k < |s| ==> s[i] != s[k]
  }

  lemma {:induction false} DistinctCount<T>(s: seq<T>, elements: set<T>)
    requires AreDistinct(s) && forall x :: x in s <==> x in elements
    ensures |s| == |elements|
  {
    if s == [] {
      assert elements == {};
    } else {
      var last, front := s[|s| - 1], s[..|s| - 1];
      assert s == front + [last];
      DistinctCount(front, elements - {last});
    }
  }

  /** The keys in some order, each once. */
  ghost predicate IsOrderOf(order: seq<string>, keys: set<string>) {
    AreDistinct(order) && forall k :: k in order <==> k in keys
  }

  /** The objects of the given keys, stamped and written one after another to the files they name. */
  function LocalAfter(j: Json, cfg: Config, at: string, local: Files, remote: Files, order: seq<string>): Files
    requires forall k :: k in order ==> k in remote
  {
    if order == [] then local
    else
      var k := order[|order| - 1];
      LocalAfter(j, cfg, at, local, remote, order[..|order| - 1])
        [cfg.pathOf(k) := Tagged(j, remote[k], InfoOf(cfg, k, at))]
  }

  function RemoteAfter(local: Files, remote: Files): Files {
    remote + map name | name in Uploads(local, remote) :: local[name]
  }

  // ------------------------------------------------------------- convergence

  /** The key whose object ends up in a file. */
  function LastKeyFor(cfg: Config, order: seq<string>, path: string): (r: Option<string>)
    ensures r.Some? ==> r.value in order && cfg.pathOf(r.value) == path
    ensures r.None? <==> forall k :: k in order ==> cfg.pathOf(k) != path
  {
    if order == [] then None
    else
      var front, last := order[..|order| - 1], order[|order| - 1];
      assert order == front + [last];
      if cfg.pathOf(last) == path then Some(last) else LastKeyFor(cfg, front, path)
  }

  /** What every file holds after a run. */
  lemma {:induction false} FileAfter(j: Json, cfg: Config, at: string, local: Files, remote: Files,
      order: seq<string>, path: string)
    requires forall k :: k in order ==> k in remote
    ensures var local' := LocalAfter(j, cfg, at, local, remote, order);
            match LastKeyFor(cfg, order, path)
            case Some(k) => path in local' && local'[path] == Tagged(j, remote[k], InfoOf(cfg, k, at))
            case None => (path in local' <==> path in local) && (path in local ==> local'[path] == local[path])
  {
    hide Tagged;
    if order != [] {
      FileAfter(j, cfg, at, local, remote, order[..|order| - 1], path);
    }
  }

  /**
   Every line of a file a run wrote reports the run's remote and peer, the
   object's own key, and the time of the run, as a remote origin.
   */
  lemma DownloadedOrigin(j: Json, cfg: Config, at: string, local: Files, remote: Files, order: seq<string>,
      path: string, i: nat)
    requires IsJson(j) && (forall k :: k in order ==> k in remote) && LastKeyFor(cfg, order, path).Some?
    ensures path in LocalAfter(j, cfg, at, local, remote, order)
    ensures var lines := Split(LocalAfter(j, cfg, at, local, remote, order)[path]);
            i < |lines| ==>
              ProvenanceOf(j, lines[i]) ==
              Info("remote", cfg.remote, cfg.peer, LastKeyFor(cfg, order, path).value, "", at)
  {
    hide IsJson, Stamp, Split, Tagged, LocalAfter, ProvenanceOf;
    var k := LastKeyFor(cfg, order, path).value;
    var info := InfoOf(cfg, k, at);
    FileAfter(j, cfg, at, local, remote, order, path);
    TaggedLines(j, remote[k], info);
    var objects := ObjectLines(j, Split(remote[k]));
    if i < |objects| {
      assert objects[i] in objects;
      StampIsAuthoritativeAndTransparent(j, objects[i], info);
    }
  }

  /** An object is refused exactly if it is remote-only and a filter denies that origin. */
  lemma RefusedIff(cfg: Config, at: string, local: Files, remote: Files, name: string)
    ensures name in Refused(cfg, at, local, remote) <==>
            && name in remote && !(name in local && IsIndexed(name))
            && cfg.filter.Some? && !cfg.filter.value(Info("remote", cfg.remote, cfg.peer, name, "", at)).allow
  {
  }

  /** The last object written to a file holds other stamped lines than the file did. */
  predicate IsOverwritten(j: Json, cfg: Config, at: string, local: Files, remote: Files, order: seq<string>,
      path: string)
    requires path in local && forall k :: k in order ==> k in remote
  {
    match LastKeyFor(cfg, order, path)
    case Some(k) => Tagged(j, remote[k], InfoOf(cfg, k, at)) != local[path]
    case None => false
  }

  /**
   One run deletes nothing and keeps every remote object.  A local file keeps
   its content exactly if no downloaded key names it or the last one that does
   carries the same stamped lines.  Every indexed local file is on the remote,
   every object that was neither refused nor without object lines is in the
   local file its key names, and nothing comes from elsewhere.
   */
  lemma SyncConverges(j: Json, cfg: Config, at: string, local: Files, remote: Files, order: seq<string>, name: string)
    requires KeepsNames(cfg.pathOf) && IsOrderOf(order, Downloads(j, cfg, at, local, remote))
    ensures var local', remote' := LocalAfter(j, cfg, at, local, remote, order), RemoteAfter(local, remote);
            && (name in local ==> name in local')
            && (name in local ==>
                  (local'[name] == local[name] <==> !IsOverwritten(j, cfg, at, local, remote, order, name)))
            && (InLocalIndex(local, name) ==> name in remote')
            && (name in remote ==> name in remote' && remote'[name] == remote[name])
            && (name in remote && name !in Refused(cfg, at, local, remote) && ObjectLines(j, Split(remote[name])) != []
                ==> cfg.pathOf(name) in local' && (IsIndexed(name) ==> name in local'))
            && (name in local' ==>
                  name in local || exists k :: k in Downloads(j, cfg, at, local, remote) && cfg.pathOf(k) == name)
            && (name in remote' ==> name in remote || InLocalIndex(local, name))
  {
    hide Tagged, Split, ObjectLines, IsIndexed, LocalAfter;
    FileAfter(j, cfg, at, local, remote, order, name);
    FileAfter(j, cfg, at, local, remote, order, cfg.pathOf(name));
  }

  /**
   The listing's order is arbitrary.  A local file is safe under every order
   exactly when each downloaded key that names it carries the same stamped lines.
   */
  lemma KeptInEveryOrderIff(j: Json, cfg: Config, at: string, local: Files, remote: Files, path: string)
    requires path in local
    ensures var keys := Downloads(j, cfg, at, local, remote);
            (forall order :: IsOrderOf(order, keys) ==> !IsOverwritten(j, cfg, at, local, remote, order, path)) <==>
            (forall k :: k in keys && cfg.pathOf(k) == path ==>
               Tagged(j, remote[k], InfoOf(cfg, k, at)) == local[path])
  {
    hide Tagged, Split, ObjectLines, IsIndexed, Allows;
    var keys := Downloads(j, cfg, at, local, remote);
    if forall order :: IsOrderOf(order, keys) ==> !IsOverwritten(j, cfg, at, local, remote, order, path) {
      forall k | k in keys && cfg.pathOf(k) == path
        ensures Tagged(j, remote[k], InfoOf(cfg, k, at)) == local[path]
      {
        var order := OrderEndingIn(keys, k);
        assert IsOrderOf(order, keys);
        assert !IsOverwritten(j, cfg, at, local, remote, order, path);
      }
    }
  }

  ghost function OrderEndingIn(keys: set<string>, k: string): (order: seq<string>)
    requires k in keys
    ensures IsOrderOf(order, keys) && order[|order| - 1] == k
  {
    var rest := Text.SortedList(keys - {k});
    assert forall i :: 0 <= i < |rest| ==> rest[i] in rest;
    rest + [k]
  }

  /** Where every key names its own file, no indexed file is overwritten, and only unindexed ones can be. */
  lemma OwnPathsKeepIndexedFiles(j: Json, cfg: Config, at: string, local: Files, remote: Files, order: seq<string>,
      name: string)
    requires IsOrderOf(order, Downloads(j, cfg, at, local, remote))
    requires forall k :: k in remote ==> cfg.pathOf(k) == k
    ensures LastKeyFor(cfg, order, name) == if name in order then Some(name) else None
    ensures InLocalIndex(local, name) ==> !IsOverwritten(j, cfg, at, local, remote, order, name)
  {
    hide Tagged, Split, ObjectLines, IsIndexed;
  }

  /** An empty file below a subdirectory is replaced by any event file the remote holds under its name. */
  lemma NestedFileOverwritten(j: Json, cfg: Config, at: string, data: string)
    requires ObjectLines(j, Split(data)) != [] && cfg.filter == None && cfg.pathOf("old/a.jsonl") == "old/a.jsonl"
    ensures var name := "old/a.jsonl";
            && Downloads(j, cfg, at, map[name := ""], map[name := data]) == {name}
            && LocalAfter(j, cfg, at, map[name := ""], map[name := data], [name])[name] != ""
  {
    hide Stamp, Split, ObjectLines;
    assert "old/a.jsonl"[3] == '/';
  }

  // -------------------------------------------------------------- a second run

  /**
   A second run, whenever it happens, uploads exactly the new plain event files
   the remote does not hold under their own names, refuses what the first
   refused unless its name became a local file's, and downloads only objects
   that are no plain event files.
   */
  lemma SecondRunPlan(j: Json, cfg: Config, at: string, later: string, local: Files, remote: Files,
      order: seq<string>)
    requires KeepsNames(cfg.pathOf) && IsOrderOf(order, Downloads(j, cfg, at, local, remote))
    requires forall name :: Allows(cfg, name, at) == Allows(cfg, name, later)
    ensures var local', remote' := LocalAfter(j, cfg, at, local, remote, order), RemoteAfter(local, remote);
            && (forall name :: name in Uploads(local', remote') <==>
                 IsIndexed(name) && LastKeyFor(cfg, order, name).Some? && name !in local && name !in remote)
            && (forall name :: name in Refused(cfg, later, local', remote') <==>
                 name in Refused(cfg, at, local, remote) &&
                 !(IsIndexed(name) && LastKeyFor(cfg, order, name).Some?))
            && (forall name :: name in Downloads(j, cfg, later, local', remote') <==>
                 name in Downloads(j, cfg, at, local, remote) && !IsIndexed(name))
  {
    hide Tagged, IsIndexed, Allows, ObjectLines, Split, LocalAfter;
    forall path ensures
      path in LocalAfter(j, cfg, at, local, remote, order) <==> path in local || LastKeyFor(cfg, order, path).Some?
    {
      FileAfter(j, cfg, at, local, remote, order, path);
    }
  }

  /** The conflicts of one object in a first run. */
  function ConflictsOf(j: Json, digest: Digest, local: Files, remote: Files, name: string): set<string> {
    if name in local && name in remote then ConflictsIn(j, digest, local[name], remote[name]) else {}
  }

  /** Its conflicts in a second run: a file that was written compares as the object it came from. */
  ghost function LaterConflictsOf(j: Json, digest: Digest, cfg: Config, local: Files, remote: Files,
      order: seq<string>, name: string): set<string>
    requires name in RemoteAfter(local, remote) && forall k :: k in order ==> k in remote
  {
    match LastKeyFor(cfg, order, name)
    case Some(k) => ObjectConflicts(j, digest, remote[k], RemoteAfter(local, remote)[name])
    case None => ConflictsOf(j, digest, local, remote, name)
  }

  /** What a second run reports, told from what the first one met. */
  lemma SecondRunConflicts(j: Json, digest: Digest, cfg: Config, at: string, local: Files, remote: Files,
      order: seq<string>)
    requires IsJson(j) && forall k :: k in order ==> k in remote
    ensures var local', remote' := LocalAfter(j, cfg, at, local, remote, order), RemoteAfter(local, remote);
            forall name, key :: (name, key) in Conflicts(j, digest, local', remote') <==>
              name in remote' && IsIndexed(name) && key in LaterConflictsOf(j, digest, cfg, local, remote, order, name)
  {
    hide Tagged, ConflictsIn, ObjectConflicts, IsJson, IsIndexed, LocalAfter, RemoteAfter;
    var local', remote' := LocalAfter(j, cfg, at, local, remote, order), RemoteAfter(local, remote);
    forall name, key
      ensures (name, key) in Conflicts(j, digest, local', remote') <==>
              name in remote' && IsIndexed(name) && key in LaterConflictsOf(j, digest, cfg, local, remote, order, name)
    {
      if name in remote' { ConflictsOfOne(j, digest, cfg, at, local, remote, order, name); }
    }
  }

  lemma ConflictsOfOne(j: Json, digest: Digest, cfg: Config, at: string, local: Files, remote: Files,
      order: seq<string>, name: string)
    requires IsJson(j) && name in RemoteAfter(local, remote) && forall k :: k in order ==> k in remote
    ensures ConflictsOf(j, digest, LocalAfter(j, cfg, at, local, remote, order), RemoteAfter(local, remote), name) ==
            LaterConflictsOf(j, digest, cfg, local, remote, order, name)
  {
    hide Tagged, ConflictsIn, ObjectConflicts, IsJson, Split, IsIndexed, LocalAfter;
    FileAfter(j, cfg, at, local, remote, order, name);
    match LastKeyFor(cfg, order, name)
    case Some(k) =>
      DownloadConflicts(j, digest, remote[k], InfoOf(cfg, k, at), RemoteAfter(local, remote)[name]);
    case None =>
      if name in local && name !in remote { NoConflictsWithItself(j, digest, local[name]); }
  }

  lemma NoConflictsWithItself(j: Json, digest: Digest, data: string)
    requires IsJson(j)
    ensures ConflictsIn(j, digest, data, data) == {}
  {
    forall key ensures !InConflict(j, digest, data, data, key) {
      NoConflictWithItself(j, digest, data, key);
    }
  }

  /**
   The second report equals the first exactly when every object that was
   written to a plain event file conflicts with the remote copy of that name
   just where the local file did before.
   */
  lemma SameReportIff(j: Json, digest: Digest, cfg: Config, at: string, local: Files, remote: Files,
      order: seq<string>)
    requires IsJson(j) && forall k :: k in order ==> k in remote
    ensures var local', remote' := LocalAfter(j, cfg, at, local, remote, order), RemoteAfter(local, remote);
            Conflicts(j, digest, local', remote') == Conflicts(j, digest, local, remote) <==>
            forall name :: name in remote' && IsIndexed(name) && LastKeyFor(cfg, order, name).Some? ==>
              ObjectConflicts(j, digest, remote[LastKeyFor(cfg, order, name).value], remote'[name]) ==
              ConflictsOf(j, digest, local, remote, name)
  {
    hide Conflicts, ConflictsOf, ObjectConflicts, IsJson, IsIndexed, LocalAfter, RemoteAfter;
    var local', remote' := LocalAfter(j, cfg, at, local, remote, order), RemoteAfter(local, remote);
    SecondRunConflicts(j, digest, cfg, at, local, remote, order);
    ConflictsByName(j, digest, local, remote);
    assert forall name :: name in remote ==> name in remote' by { RemoteKeepsObjects(local, remote); }
    if forall name :: name in remote' && IsIndexed(name) && LastKeyFor(cfg, order, name).Some? ==>
         LaterConflictsOf(j, digest, cfg, local, remote, order, name) == ConflictsOf(j, digest, local, remote, name)
    {
      SamePairs(Conflicts(j, digest, local', remote'), Conflicts(j, digest, local, remote));
    }
    if Conflicts(j, digest, local', remote') == Conflicts(j, digest, local, remote) {
      forall name | name in remote' && IsIndexed(name) && LastKeyFor(cfg, order, name).Some?
        ensures LaterConflictsOf(j, digest, cfg, local, remote, order, name) ==
                ConflictsOf(j, digest, local, remote, name)
      {
        forall key ensures key in LaterConflictsOf(j, digest, cfg, local, remote, order, name) <==>
                           key in ConflictsOf(j, digest, local, remote, name)
        {
          assert (name, key) in Conflicts(j, digest, local', remote') <==>
                 (name, key) in Conflicts(j, digest, local, remote);
        }
      }
    }
  }

  lemma ConflictsByName(j: Json, digest: Digest, local: Files, remote: Files)
    ensures forall name, key :: (name, key) in Conflicts(j, digest, local, remote) <==>
              IsIndexed(name) && key in ConflictsOf(j, digest, local, remote, name)
    ensures forall name, key :: key in ConflictsOf(j, digest, local, remote, name) ==> name in remote
  {
    hide ConflictsIn, IsIndexed;
  }

  lemma SamePairs(a: set<(string, string)>, b: set<(string, string)>)
    requires forall name, key :: (name, key) in a <==> (name, key) in b
    ensures a == b
  {
    forall p ensures p in a <==> p in b {
      assert p == (p.0, p.1);
    }
  }

  lemma RemoteKeepsObjects(local: Files, remote: Files)
    ensures forall name :: name in remote ==>
            name in RemoteAfter(local, remote) && RemoteAfter(local, remote)[name] == remote[name]
  {
  }

  /**
   Where every key names its own file, the reports are equal exactly when no
   downloaded event file has a null shadow.
  */
  lemma NullShadowsDecide(j: Json, digest: Digest, cfg: Config, at: string, local: Files, remote: Files,
      order: seq<string>)
    requires IsJson(j) && IsOrderOf(order, Downloads(j, cfg, at, local, remote))
    requires forall k :: k in remote ==> cfg.pathOf(k) == k
    ensures var local', remote' := LocalAfter(j, cfg, at, local, remote, order), RemoteAfter(local, remote);
            && (forall name, key :: (name, key) in Conflicts(j, digest, local', remote') <==>
                 (name, key) in Conflicts(j, digest, local, remote) ||
                   (name, key) in PlantedConflicts(j, digest, cfg, at, local, remote))
            && (Conflicts(j, digest, local', remote') == Conflicts(j, digest, local, remote) <==>
                 forall name :: name in Downloads(j, cfg, at, local, remote) && IsIndexed(name) ==>
                   !HasNullShadow(j, digest, remote[name]))
  {
    hide Conflicts, ConflictsIn, ObjectConflicts, HasNullShadow, IsJson, IsIndexed, LocalAfter, Tagged, Split, Allows;
    hide ObjectLines;
    var local', remote' := LocalAfter(j, cfg, at, local, remote, order), RemoteAfter(local, remote);
    SecondRunConflicts(j, digest, cfg, at, local, remote, order);
    ConflictsByName(j, digest, local, remote);
    RemoteKeepsObjects(local, remote);
    forall name, key
      ensures (name, key) in Conflicts(j, digest, local', remote') <==>
              (name, key) in Conflicts(j, digest, local, remote) ||
                (name, key) in PlantedConflicts(j, digest, cfg, at, local, remote)
    {
      OwnPathsKeepIndexedFiles(j, cfg, at, local, remote, order, name);
      if name in order { OwnConflicts(j, digest, remote[name]); }
    }
    PlantedAreNew(j, digest, cfg, at, local, remote);
    var planted := PlantedConflicts(j, digest, cfg, at, local, remote);
    hide PlantedConflicts;
    SamePairs(Conflicts(j, digest, local', remote'), Conflicts(j, digest, local, remote) + planted);
  }

  lemma PlantedAreNew(j: Json, digest: Digest, cfg: Config, at: string, local: Files, remote: Files)
    ensures PlantedConflicts(j, digest, cfg, at, local, remote) !! Conflicts(j, digest, local, remote)
    ensures PlantedConflicts(j, digest, cfg, at, local, remote) == {} <==>
            forall name :: name in Downloads(j, cfg, at, local, remote) && IsIndexed(name) ==>
              !HasNullShadow(j, digest, remote[name])
  {
    hide ConflictsIn, HasNullShadow, IsIndexed, Allows, ObjectLines, Split;
    forall name | name in Downloads(j, cfg, at, local, remote) && IsIndexed(name) &&
                  HasNullShadow(j, digest, remote[name])
      ensures (name, EmptyIdsKey(digest)) in PlantedConflicts(j, digest, cfg, at, local, remote)
    {
    }
  }

  /** The null-shadowed conflicts such a run plants for the next one. */
  ghost function PlantedConflicts(j: Json, digest: Digest, cfg: Config, at: string, local: Files,
      remote: Files): set<(string, string)> {
    set name | name in Downloads(j, cfg, at, local, remote) && IsIndexed(name) &&
      HasNullShadow(j, digest, remote[name]) ::
      (name, EmptyIdsKey(digest))
  }

  /**
   An object whose key is another spelling of an indexed file's name replaces
   that file.  The first run reports nothing, the next one what differs.
   */
  lemma OtherSpellingOverwrites(j: Json, digest: Digest, cfg: Config, at: string, name: string, key: string,
      before: string, data: string)
    requires IsJson(j) && ObjectLines(j, Split(data)) != [] && cfg.filter == None
    requires IsIndexed(name) && !IsIndexed(key) && cfg.pathOf(key) == name
    ensures var local, remote := map[name := before], map[key := data];
            var local' := LocalAfter(j, cfg, at, local, remote, [key]);
            && Downloads(j, cfg, at, local, remote) == {key}
            && local' == map[name := Tagged(j, data, InfoOf(cfg, key, at))]
            && Conflicts(j, digest, local, remote) == {}
            && (forall k :: (name, k) in Conflicts(j, digest, local', RemoteAfter(local, remote)) <==>
                 k in ObjectConflicts(j, digest, data, before))
  {
    hide IsJson, IsIndexed, ObjectLines, Split, Tagged, ConflictsIn, ObjectConflicts;
    var local, remote := map[name := before], map[key := data];
    assert RemoteAfter(local, remote) == map[name := before, key := data];
    SecondRunConflicts(j, digest, cfg, at, local, remote, [key]);
    assert [key][..0] == [];
    hide Conflicts;
  }

  lemma NullAfterObject(j: Json, digest: Digest, obj: string, nil: string)
    requires IsJson(j) && j.parse(obj) == Object(map[]) && j.parse(nil) == Null
    ensures LastLine(j, digest, [obj, nil], EmptyIdsKey(digest)) == Some(nil)
    ensures LastLine(j, digest, ObjectLines(j, [obj, nil]), EmptyIdsKey(digest)) == Some(obj)
  {
    EmptyIdsIndexed(j, digest, obj, nil);
    hide LastLine, ObjectLines, KeyOf, EmptyIdsKey, IsJson;
    assert [obj, nil] == [obj] + [nil] && [obj] == [] + [obj];
    LastOfOneMore(j, digest, [], obj, EmptyIdsKey(digest));
    LastOfOneMore(j, digest, [obj], nil, EmptyIdsKey(digest));
    NoObjectLines(j);
  }

  lemma EmptyIdsIndexed(j: Json, digest: Digest, obj: string, nil: string)
    requires IsJson(j) && j.parse(obj) == Object(map[]) && j.parse(nil) == Null
    ensures KeyOf(j, digest, obj) == KeyOf(j, digest, nil) == Some(EmptyIdsKey(digest))
    ensures IsObjectLine(j, obj) && !IsObjectLine(j, nil)
  {
    hide EncodesJson, StampsJson, TrimSpace;
  }

  lemma NoObjectLines(j: Json)
    ensures ObjectLines(j, []) == []
  {
  }

  lemma LastOfOneMore(j: Json, digest: Digest, lines: seq<string>, line: string, key: string)
    ensures LastLine(j, digest, lines + [line], key) ==
            if KeyOf(j, digest, line) == Some(key) then Some(line) else LastLine(j, digest, lines, key)
    ensures ObjectLines(j, lines + [line]) == ObjectLines(j, lines) + if IsObjectLine(j, line) then [line] else []
    ensures LastLine(j, digest, ObjectLines(j, lines + [line]), key) ==
            if IsObjectLine(j, line) && KeyOf(j, digest, line) == Some(key) then Some(line)
            else LastLine(j, digest, ObjectLines(j, lines), key)
  {
    hide KeyOf, IsObjectLine;
    var objects := ObjectLines(j, lines);
    assert (lines + [line])[..|lines|] == lines;
    assert (objects + [line])[..|objects|] == objects && objects + [] == objects;
  }

  /** Such a file exists: an event without ids followed by a null line. */
  lemma NullShadowExists(j: Json, digest: Digest)
    requires IsJson(j) && j.parse("{}") == Object(map[]) && j.parse("null") == Null
    ensures HasNullShadow(j, digest, "{}\nnull\n")
  {
    hide IsJson, LastLine, ObjectLines, EmptyIdsKey, Split, JoinLines;
    var lines := ["{}", "null"];
    assert "{}\nnull\n" == JoinLines(lines) by {
      JoinFirst("null", []);
      JoinFirst("{}", ["null"]);
      NoLines();
      assert ["null"] + [] == ["null"] && ["{}"] + ["null"] == lines;
    }
    SplitJoin(lines);
    NullAfterObject(j, digest, "{}", "null");
  }

  /** With plain event files only, the stores are settled: the second run moves nothing. */
  lemma SecondRunMovesNothing(j: Json, cfg: Config, at: string, later: string, local: Files, remote: Files,
      order: seq<string>, again: seq<string>)
    requires KeepsNames(cfg.pathOf) && IsOrderOf(order, Downloads(j, cfg, at, local, remote))
    requires forall name :: Allows(cfg, name, at) == Allows(cfg, name, later)
    requires forall name :: name in remote ==> IsIndexed(name)
    requires var local', remote' := LocalAfter(j, cfg, at, local, remote, order), RemoteAfter(local, remote);
             IsOrderOf(again, Downloads(j, cfg, later, local', remote'))
    ensures var local', remote' := LocalAfter(j, cfg, at, local, remote, order), RemoteAfter(local, remote);
            LocalAfter(j, cfg, later, local', remote', again) == local' && RemoteAfter(local', remote') == remote'
  {
    hide Allows, IsIndexed, ObjectLines, Split, Tagged, LocalAfter, RemoteAfter;
    SecondRunPlan(j, cfg, at, later, local, remote, order);
    var local', remote' := LocalAfter(j, cfg, at, local, remote, order), RemoteAfter(local, remote);
    assert forall name :: name in Downloads(j, cfg, at, local, remote) ==> IsIndexed(name);
    NothingToDo(j, cfg, later, local', remote', again);
  }

  lemma NothingToDo(j: Json, cfg: Config, at: string, local: Files, remote: Files, order: seq<string>)
    requires IsOrderOf(order, Downloads(j, cfg, at, local, remote))
    requires Downloads(j, cfg, at, local, remote) == {} && Uploads(local, remote) == {}
    ensures LocalAfter(j, cfg, at, local, remote, order) == local && RemoteAfter(local, remote) == remote
  {
    hide Downloads, Uploads, Tagged;
    DistinctCount(order, {});
  }
}
