/**
 The sync command itself: the object store and the events directory as
 mutable objects, conflict detection, and doSync.
 */
module SyncCommand {
  import Text
  import opened Lines
  import opened Provenance
  import opened Sync
  import opened Wrappers

  datatype ObjectMeta = ObjectMeta(key: string, etag: string, size: nat)

  /** The in-memory object store; a failing one fails every operation. */
  class MemS3Client {
    var objects: Files
    var failing: bool

    constructor (objects: Files, failing: bool)
      ensures this.objects == objects && this.failing == failing
    {
      this.objects, this.failing := objects, failing;
    }

    /** Every object once, in an order the map chooses. */
    method ListObjects() returns (metas: Option<seq<ObjectMeta>>)
      ensures metas.None? <==> failing
      ensures metas.Some? ==> AreMetas(objects, metas.value)
    {
      if failing {
        return None;
      }
      var out: seq<ObjectMeta> := [];
      var rest := objects.Keys;
      while rest != {}
        invariant rest <= objects.Keys
        invariant forall m :: m in out ==> m.key in objects && m.key !in rest && m.etag == ""
        invariant forall k :: k in objects && k !in rest ==> exists i :: 0 <= i < |out| && out[i].key == k
        invariant forall i, k :: 0 <= i < k < |out| ==> out[i].key != out[k].key
        decreases |rest|
      {
        var k :| k in rest;
        ghost var before := out;
        assert forall i :: 0 <= i < |out| ==> out[i] in out;
        out := out + [ObjectMeta(k, "", |objects[k]|)];
        assert out[|before|].key == k && forall i :: 0 <= i < |before| ==> out[i] == before[i];
        rest := rest - {k};
      }
      return Some(out);
    }

    method GetObject(key: string) returns (data: Option<string>)
      ensures data == if failing || key !in objects then None else Some(objects[key])
    {
      return if failing || key !in objects then None else Some(objects[key]);
    }

    method PutObject(key: string, data: string) returns (ok: bool)
      modifies this
      ensures failing == old(failing) && ok == !failing
      ensures objects == if failing then old(objects) else old(objects)[key := data]
    {
      if failing {
        return false;
      }
      objects := objects[key := data];
      return true;
    }
  }

  ghost predicate AreMetas(objects: Files, metas: seq<ObjectMeta>) {
    && (forall i :: 0 <= i < |metas| ==> metas[i].key in objects && metas[i].etag == "")
    && (forall k :: k in objects ==> exists i :: 0 <= i < |metas| && metas[i].key == k)
    && (forall i, k :: 0 <= i < k < |metas| ==> metas[i].key != metas[k].key)
  }

  /** The events directory. */
  class EventDir {
    var files: Files

    constructor (files: Files)
      ensures this.files == files
    {
      this.files := files;
    }

    /** One index per plain event file. */
    method BuildLocalIndex(j: Json, digest: Digest) returns (index: map<string, Index>)
      ensures IsLocalIndex(j, digest, files, index)
    {
      index := map[];
      var rest := files.Keys;
      while rest != {}
        invariant rest <= files.Keys
        invariant forall name :: name in index <==> name in files && IsIndexed(name) && name !in rest
        invariant forall name :: name in index ==> IsIndexOf(j, digest, Scanned(Split(files[name])), index[name])
        decreases |rest|
      {
        var name :| name in rest;
        if IsIndexed(name) {
          var events := ReadSyncEvents(j, digest, files[name]);
          index := index[name := events];
        }
        rest := rest - {name};
      }
    }
  }

  ghost predicate IsLocalIndex(j: Json, digest: Digest, files: Files, index: map<string, Index>) {
    && (forall name :: name in index <==> InLocalIndex(files, name))
    && (forall name :: name in index ==> IsIndexOf(j, digest, Scanned(Split(files[name])), index[name]))
  }

  datatype ConflictEntry = ConflictEntry(
    dedupKey: string, sessionId: string, eventId: string, localCreatedAt: string, localSource: string,
    remoteCreatedAt: string, remoteSource: string, resolution: string, conflictAt: string)

  predicate IsBefore(a: string, b: string) {
    Text.AtMost(a, b) && a != b
  }

  /** The earlier of two dated versions wins; in doubt the local one does. */
  function Resolution(local: Ids, remote: Ids): string {
    if remote.createdAt != "" && local.createdAt != "" && IsBefore(remote.createdAt, local.createdAt) then "remote_wins"
    else "local_wins"
  }

  function EntryFor(j: Json, key: string, l: Event, r: Event, at: string): ConflictEntry {
    ConflictEntry(key, l.ids.sessionId, l.ids.eventId, l.ids.createdAt, ProvenanceOf(j, l.raw).source,
                  r.ids.createdAt, "remote", Resolution(l.ids, r.ids), at)
  }

  /** The event a file is indexed with under a key. */
  ghost function EventUnder(j: Json, digest: Digest, lines: seq<string>, key: string): Event
    requires LastLine(j, digest, lines, key).Some?
  {
    var line := LastLine(j, digest, lines, key).value;
    Event(EventOf(j, line).value, line)
  }

  /** One entry per conflicting key, describing both versions. */
  ghost predicate AreEntries(j: Json, digest: Digest, at: string, local: string, remote: string, keys: seq<string>,
      entries: seq<ConflictEntry>) {
    && |entries| == |keys|
    && forall i :: 0 <= i < |keys| ==>
         InConflict(j, digest, local, remote, keys[i]) &&
         entries[i] == EntryFor(j, keys[i], EventUnder(j, digest, Scanned(Split(local)), keys[i]),
           EventUnder(j, digest, Split(remote), keys[i]), at)
  }

  lemma IndexesDecideConflict(j: Json, digest: Digest, local: string, remote: string, localEvents: Index,
      remoteEvents: Index, key: string)
    requires IsIndexOf(j, digest, Scanned(Split(local)), localEvents) &&
             IsIndexOf(j, digest, Split(remote), remoteEvents)
    ensures key in ConflictsIn(j, digest, local, remote) <==>
            key in remoteEvents && key in localEvents &&
              !SameEventContent(j, localEvents[key].raw, remoteEvents[key].raw)
    ensures key in ConflictsIn(j, digest, local, remote) <==> InConflict(j, digest, local, remote, key)
    ensures key in ConflictsIn(j, digest, local, remote) ==>
              localEvents[key] == EventUnder(j, digest, Scanned(Split(local)), key) &&
                remoteEvents[key] == EventUnder(j, digest, Split(remote), key)
  {
    hide SameEventContent, KeysOf, Split;
    ConflictIsKeyed(j, digest, local, remote, key);
    assert LastLine(j, digest, Scanned(Split(local)), key).Some? <==> key in localEvents;
    assert LastLine(j, digest, Split(remote), key).Some? <==> key in remoteEvents;
  }

  /** The body of detectConflicts for one object present on both sides. */
  method CompareObject(j: Json, digest: Digest, at: string, localEvents: Index, remoteEvents: Index,
      ghost local: string, ghost remote: string)
    returns (entries: seq<ConflictEntry>, ghost keys: seq<string>)
    requires IsIndexOf(j, digest, Scanned(Split(local)), localEvents) &&
             IsIndexOf(j, digest, Split(remote), remoteEvents)
    ensures AreDistinct(keys) && (forall key :: key in keys <==> key in ConflictsIn(j, digest, local, remote))
    ensures AreEntries(j, digest, at, local, remote, keys, entries)
  {
    hide ConflictsIn, InConflict, IsIndexOf, SameEventContent, EventUnder;
    entries, keys := [], [];
    var rest := remoteEvents.Keys;
    forall key
      ensures key in ConflictsIn(j, digest, local, remote) <==>
              key in remoteEvents && key in localEvents &&
                !SameEventContent(j, localEvents[key].raw, remoteEvents[key].raw)
    {
      IndexesDecideConflict(j, digest, local, remote, localEvents, remoteEvents, key);
    }
    while rest != {}
      invariant rest <= remoteEvents.Keys
      invariant AreDistinct(keys)
      invariant forall key :: key in keys <==> key in ConflictsIn(j, digest, local, remote) && key !in rest
      invariant AreEntries(j, digest, at, local, remote, keys, entries)
      decreases |rest|
    {
      var key :| key in rest;
      rest := rest - {key};
      if key in localEvents && !SameEventContent(j, localEvents[key].raw, remoteEvents[key].raw) {
        IndexesDecideConflict(j, digest, local, remote, localEvents, remoteEvents, key);
        assert forall i :: 0 <= i < |keys| ==> keys[i] in keys;
        entries := entries + [EntryFor(j, key, localEvents[key], remoteEvents[key], at)];
        keys := keys + [key];
      }
    }
  }

  /** One entry per conflicting (object, key) pair. */
  ghost predicate AreReports(j: Json, digest: Digest, at: string, local: Files, remote: Files,
      pairs: seq<(string, string)>, entries: seq<ConflictEntry>) {
    && |entries| == |pairs|
    && forall i :: 0 <= i < |pairs| ==>
         var (name, key) := pairs[i];
         name in local && name in remote && AreEntries(j, digest, at, local[name], remote[name], [key], [entries[i]])
  }

  ghost function Paired(name: string, keys: seq<string>): (r: seq<(string, string)>)
    ensures |r| == |keys| && forall i :: 0 <= i < |r| ==> r[i] == (name, keys[i])
  {
    seq(|keys|, i requires 0 <= i < |keys| => (name, keys[i]))
  }

  /** The conflicts found once the first n listed objects were compared. */
  ghost predicate AreFound(j: Json, digest: Digest, local: Files, remote: Files, metas: seq<ObjectMeta>, n: nat,
      pairs: seq<(string, string)>)
    requires n <= |metas|
  {
    && AreDistinct(pairs)
    && forall name, key :: (name, key) in pairs <==>
         (exists i :: 0 <= i < n && metas[i].key == name) && (name, key) in Conflicts(j, digest, local, remote)
  }

  lemma FoundOneMore(j: Json, digest: Digest, local: Files, remote: Files, metas: seq<ObjectMeta>, n: nat,
      pairs: seq<(string, string)>, keys: seq<string>)
    requires AreMetas(remote, metas) && n < |metas| && AreFound(j, digest, local, remote, metas, n, pairs)
    requires AreDistinct(keys)
    requires forall key :: key in keys <==> (metas[n].key, key) in Conflicts(j, digest, local, remote)
    ensures AreFound(j, digest, local, remote, metas, n + 1, pairs + Paired(metas[n].key, keys))
  {
    hide Conflicts;
    var name := metas[n].key;
    var more := Paired(name, keys);
    var all := pairs + more;
    forall i | 0 <= i < |pairs| ensures pairs[i].0 != name {
      assert pairs[i] in pairs && (pairs[i].0, pairs[i].1) == pairs[i];
    }
    forall key ensures (name, key) in more <==> key in keys {
      if key in keys {
        var i :| 0 <= i < |keys| && keys[i] == key;
        assert more[i] == (name, key);
      }
    }
    forall other, key ensures (other, key) in all <==>
      (exists i :: 0 <= i < n + 1 && metas[i].key == other) && (other, key) in Conflicts(j, digest, local, remote)
    {
      assert (other, key) in all <==> (other, key) in pairs || (other, key) in more;
      assert other != name ==> (other, key) !in more;
    }
  }

  method DetectConflicts(j: Json, digest: Digest, at: string, store: MemS3Client, localIndex: map<string, Index>,
      metas: seq<ObjectMeta>, ghost local: Files)
    returns (count: nat, entries: seq<ConflictEntry>, ghost pairs: seq<(string, string)>)
    requires !store.failing && AreMetas(store.objects, metas) && IsLocalIndex(j, digest, local, localIndex)
    ensures count == |entries| == |Conflicts(j, digest, local, store.objects)|
    ensures AreDistinct(pairs) && forall name, key :: (name, key) in pairs <==>
            (name, key) in Conflicts(j, digest, local, store.objects)
    ensures AreReports(j, digest, at, local, store.objects, pairs, entries)
  {
    hide Conflicts, AreFound, IsIndexOf, AreReports, ConflictsIn;
    count, entries, pairs := 0, [], [];
    ghost var remote := store.objects;
    NothingFound(j, digest, at, local, remote, metas);
    for n := 0 to |metas|
      invariant count == |entries|
      invariant AreFound(j, digest, local, remote, metas, n, pairs)
      invariant AreReports(j, digest, at, local, remote, pairs, entries)
    {
      var name := metas[n].key;
      var found: seq<ConflictEntry> := [];
      ghost var keys: seq<string> := [];
      if name in localIndex {
        var data := store.GetObject(name);
        var remoteEvents := ParseRemoteEvents(j, digest, data.value);
        found, keys := CompareObject(j, digest, at, localIndex[name], remoteEvents, local[name], remote[name]);
      }
      ConflictsOfName(j, digest, local, remote, name, keys);
      FoundOneMore(j, digest, local, remote, metas, n, pairs, keys);
      if name in localIndex {
        ReportsOfMore(j, digest, at, local, remote, pairs, entries, name, keys, found);
      }
      assert pairs + Paired(name, []) == pairs && entries + [] == entries;
      count, entries, pairs := count + |found|, entries + found, pairs + Paired(name, keys);
    }
    AllFound(j, digest, local, remote, metas, pairs);
    assert |entries| == |pairs| by { SameLength(j, digest, at, local, remote, pairs, entries); }
  }

  lemma SameLength(j: Json, digest: Digest, at: string, local: Files, remote: Files, pairs: seq<(string, string)>,
      entries: seq<ConflictEntry>)
    requires AreReports(j, digest, at, local, remote, pairs, entries)
    ensures |entries| == |pairs|
  {
  }

  lemma NothingFound(j: Json, digest: Digest, at: string, local: Files, remote: Files, metas: seq<ObjectMeta>)
    ensures AreFound(j, digest, local, remote, metas, 0, []) && AreReports(j, digest, at, local, remote, [], [])
  {
  }

  lemma ConflictsOfName(j: Json, digest: Digest, local: Files, remote: Files, name: string, keys: seq<string>)
    requires name in remote
    requires if InLocalIndex(local, name)
             then forall key :: key in keys <==> key in ConflictsIn(j, digest, local[name], remote[name])
             else keys == []
    ensures forall key :: key in keys <==> (name, key) in Conflicts(j, digest, local, remote)
  {
    hide ConflictsIn;
  }

  lemma ReportsOfMore(j: Json, digest: Digest, at: string, local: Files, remote: Files, pairs: seq<(string, string)>,
      entries: seq<ConflictEntry>,
                      name: string, keys: seq<string>, found: seq<ConflictEntry>)
    requires AreReports(j, digest, at, local, remote, pairs, entries)
    requires name in local && name in remote && AreEntries(j, digest, at, local[name], remote[name], keys, found)
    ensures AreReports(j, digest, at, local, remote, pairs + Paired(name, keys), entries + found)
  {
    hide InConflict, EntryFor, EventUnder;
  }

  lemma AllFound(j: Json, digest: Digest, local: Files, remote: Files, metas: seq<ObjectMeta>,
      pairs: seq<(string, string)>)
    requires AreMetas(remote, metas) && AreFound(j, digest, local, remote, metas, |metas|, pairs)
    ensures AreDistinct(pairs) && forall name, key :: (name, key) in pairs <==>
            (name, key) in Conflicts(j, digest, local, remote)
    ensures |pairs| == |Conflicts(j, digest, local, remote)|
  {
    hide ConflictsIn;
    forall p ensures p in pairs <==> p in Conflicts(j, digest, local, remote) {
      assert p == (p.0, p.1);
    }
    DistinctCount(pairs, Conflicts(j, digest, local, remote));
  }

  /** What an entry says about the two lines it compares. */
  ghost predicate Describes(j: Json, digest: Digest, at: string, here: string, there: string, entry: ConflictEntry)
    requires IsEventLine(j, here) && IsEventLine(j, there)
  {
    && entry.dedupKey == digest(PairText(j, here))
    && FieldText(j, here, "session_id") == Some(entry.sessionId)
    && FieldText(j, here, "event_id") == Some(entry.eventId)
    && FieldText(j, here, "created_at") == Some(entry.localCreatedAt)
    && FieldText(j, there, "created_at") == Some(entry.remoteCreatedAt)
    && entry.localSource == ProvenanceOf(j, here).source && entry.remoteSource == "remote"
    && entry.conflictAt == at
    && (entry.resolution == "remote_wins" <==>
          && entry.localCreatedAt != "" && entry.remoteCreatedAt != ""
          && !Text.AtMost(entry.localCreatedAt, entry.remoteCreatedAt))
    && (entry.resolution != "remote_wins" ==> entry.resolution == "local_wins")
  }

  lemma EntryDescribes(j: Json, digest: Digest, at: string, here: string, there: string)
    requires IsEventLine(j, here) && IsEventLine(j, there)
    ensures EventOf(j, here).Some? && EventOf(j, there).Some?
    ensures Describes(j, digest, at, here, there,
              EntryFor(j, digest(PairText(j, here)), Event(EventOf(j, here).value, here),
                       Event(EventOf(j, there).value, there), at))
  {
    hide FieldText, IsEventLine, PairText, EventOf, ProvenanceOf;
    KeyByFields(j, digest, here);
    KeyByFields(j, digest, there);
    var a, b := EventOf(j, here).value.createdAt, EventOf(j, there).value.createdAt;
    Text.AtMostTotal(a, b);
    if Text.AtMost(a, b) && Text.AtMost(b, a) { Text.AtMostAntisymmetric(a, b); }
    if a == b { Text.AtMostTotal(a, a); }
    assert "local_wins"[0] != "remote_wins"[0];
  }

  /** The entry tells of the last lines, here and there, of one pair, which differ in content. */
  ghost predicate IsAbout(j: Json, digest: Digest, at: string, here: seq<string>, there: seq<string>, i: nat, k: nat,
      entry: ConflictEntry) {
    && IsLastOfPair(j, here, i) && IsLastOfPair(j, there, k)
    && PairText(j, here[i]) == PairText(j, there[k]) && !SameEventContent(j, here[i], there[k])
    && Describes(j, digest, at, here[i], there[k], entry)
  }

  lemma EntriesDescribe(j: Json, digest: Digest, at: string, local: string, remote: string, key: string,
      entry: ConflictEntry)
    requires AreEntries(j, digest, at, local, remote, [key], [entry]) && IsCollisionFree(digest)
    ensures exists i: nat, k: nat :: IsAbout(j, digest, at, Scanned(Split(local)), Split(remote), i, k, entry)
  {
    hide Describes, SameEventContent, Split, IsEventLine, PairText, KeyOf, FieldText, EntryFor, EventOf;
    var here, there := Scanned(Split(local)), Split(remote);
    assert InConflict(j, digest, local, remote, [key][0]);
    LastLineOfPair(j, digest, here, key);
    LastLineOfPair(j, digest, there, key);
    var i: nat :| IsLastOfPair(j, here, i) && here[i] == LastLine(j, digest, here, key).value;
    var k: nat :| IsLastOfPair(j, there, k) && there[k] == LastLine(j, digest, there, key).value;
    KeyByFields(j, digest, here[i]);
    KeyByFields(j, digest, there[k]);
    EntryDescribes(j, digest, at, here[i], there[k]);
    assert [entry][0] == entry;
    assert IsAbout(j, digest, at, here, there, i, k, entry);
  }

  /**
   Each reported conflict is about the last lines, local and remote, of one pair of
   session and event id, which differ in content.  The remote version wins exactly
   if both are dated and it is the earlier one.
   */
  lemma ReportedConflict(j: Json, digest: Digest, at: string, local: Files, remote: Files,
      pairs: seq<(string, string)>, entries: seq<ConflictEntry>, n: nat)
    requires AreReports(j, digest, at, local, remote, pairs, entries) && n < |pairs| && IsCollisionFree(digest)
    ensures pairs[n].0 in local && pairs[n].0 in remote
    ensures exists i: nat, k: nat ::
              IsAbout(j, digest, at, Scanned(Split(local[pairs[n].0])), Split(remote[pairs[n].0]), i, k, entries[n])
  {
    hide InConflict, Split;
    assert AreEntries(j, digest, at, local[pairs[n].0], remote[pairs[n].0], [pairs[n].1], [entries[n]]);
    EntriesDescribe(j, digest, at, local[pairs[n].0], remote[pairs[n].0], pairs[n].1, entries[n]);
  }

  // ------------------------------------------------------------------ doSync

  /** The files of `from` named in `names`, put over `onto`. */
  function Put(onto: Files, from: Files, names: seq<string>): Files {
    onto + map name | name in names && name in from :: from[name]
  }

  /** toUpload: indexed local files the listing does not have, in map order. */
  method PlanUploads(localIndex: map<string, Index>, remoteIndex: set<string>, ghost local: Files,
      ghost remote: Files)
    returns (toUpload: seq<string>)
    requires (forall name :: name in localIndex <==> InLocalIndex(local, name)) && remoteIndex == remote.Keys
    ensures AreDistinct(toUpload) && forall name :: name in toUpload <==> name in Uploads(local, remote)
  {
    toUpload := [];
    var rest := localIndex.Keys;
    while rest != {}
      invariant rest <= localIndex.Keys && AreDistinct(toUpload)
      invariant forall name :: name in toUpload <==> name in Uploads(local, remote) && name !in rest
      decreases |rest|
    {
      var name :| name in rest;
      rest := rest - {name};
      if name !in remoteIndex {
        assert forall i :: 0 <= i < |toUpload| ==> toUpload[i] in toUpload;
        toUpload := toUpload + [name];
      }
    }
  }

  /** The remote-only objects that are allowed, and how many are not. */
  method PlanDownloads(cfg: Config, at: string, localIndex: map<string, Index>, metas: seq<ObjectMeta>,
      ghost local: Files, ghost remote: Files)
    returns (toDownload: seq<string>, rejected: nat)
    requires (forall name :: name in localIndex <==> InLocalIndex(local, name)) && AreMetas(remote, metas)
    ensures AreDistinct(toDownload)
    ensures forall name :: name in toDownload <==> name in remote && !InLocalIndex(local, name) && Allows(cfg, name, at)
    ensures rejected == |Refused(cfg, at, local, remote)|
  {
    hide InLocalIndex, Allows;
    toDownload, rejected := [], 0;
    ghost var refused: seq<string> := [];
    for n := 0 to |metas|
      invariant AreDistinct(toDownload) && AreDistinct(refused) && rejected == |refused|
      invariant forall name :: name in toDownload <==>
                  (exists i :: 0 <= i < n && metas[i].key == name) && !InLocalIndex(local, name) &&
                    Allows(cfg, name, at)
      invariant forall name :: name in refused <==>
                  (exists i :: 0 <= i < n && metas[i].key == name) && !InLocalIndex(local, name) &&
                    !Allows(cfg, name, at)
    {
      var name := metas[n].key;
      assert name !in toDownload && name !in refused;
      assert forall i :: 0 <= i < |toDownload| ==> toDownload[i] in toDownload;
      assert forall i :: 0 <= i < |refused| ==> refused[i] in refused;
      if name !in localIndex {
        if Allows(cfg, name, at) {
          toDownload := toDownload + [name];
        } else {
          refused, rejected := refused + [name], rejected + 1;
        }
      }
    }
    DistinctCount(refused, Refused(cfg, at, local, remote));
  }

  lemma PutNothing(onto: Files, from: Files)
    ensures Put(onto, from, []) == onto
  {
  }

  lemma PutOneMore(onto: Files, from: Files, names: seq<string>, name: string)
    requires name in from
    ensures Put(onto, from, names + [name]) == Put(onto, from, names)[name := from[name]]
  {
  }

  method UploadAll(dir: EventDir, store: MemS3Client, toUpload: seq<string>) returns (uploaded: nat)
    requires !store.failing && forall name :: name in toUpload ==> name in dir.files
    modifies store
    ensures !store.failing && store.objects == Put(old(store.objects), dir.files, toUpload) && uploaded == |toUpload|
  {
    hide Put;
    uploaded := 0;
    ghost var before := store.objects;
    PutNothing(before, dir.files);
    for i := 0 to |toUpload|
      invariant !store.failing && uploaded == i
      invariant store.objects == Put(before, dir.files, toUpload[..i])
    {
      var ok := store.PutObject(toUpload[i], dir.files[toUpload[i]]);
      assert toUpload[..i + 1] == toUpload[..i] + [toUpload[i]];
      PutOneMore(before, dir.files, toUpload[..i], toUpload[i]);
      if ok {
        uploaded := uploaded + 1;
      }
    }
    assert toUpload[..|toUpload|] == toUpload;
  }

  lemma WriteOneMore(j: Json, cfg: Config, at: string, local: Files, remote: Files, keys: seq<string>, key: string)
    requires key in remote && forall k :: k in keys ==> k in remote
    ensures LocalAfter(j, cfg, at, local, remote, keys + [key]) ==
            LocalAfter(j, cfg, at, local, remote, keys)[cfg.pathOf(key) := Tagged(j, remote[key], InfoOf(cfg, key, at))]
  {
    assert (keys + [key])[..|keys|] == keys;
  }

  lemma {:induction false} WritesReadOnlyTheirObjects(j: Json, cfg: Config, at: string, local: Files, remote: Files,
      other: Files, keys: seq<string>)
    requires forall k :: k in keys ==> k in remote && k in other && other[k] == remote[k]
    ensures LocalAfter(j, cfg, at, local, other, keys) == LocalAfter(j, cfg, at, local, remote, keys)
  {
    hide Tagged;
    if keys != [] {
      WritesReadOnlyTheirObjects(j, cfg, at, local, remote, other, keys[..|keys| - 1]);
    }
  }

  /** Writes every planned object with an object line to the file its key names. */
  method DownloadAll(j: Json, cfg: Config, at: string, dir: EventDir, store: MemS3Client, toDownload: seq<string>)
    returns (downloaded: nat, ghost written: seq<string>)
    requires IsJson(j) && !store.failing && AreDistinct(toDownload)
    requires forall key :: key in toDownload ==> key in store.objects
    modifies dir
    ensures downloaded == |written| && AreDistinct(written)
    ensures forall key :: key in written <==> key in toDownload && ObjectLines(j, Split(store.objects[key])) != []
    ensures dir.files == LocalAfter(j, cfg, at, old(dir.files), store.objects, written)
  {
    hide IsJson, ObjectLines, Tagged, Split, LocalAfter;
    downloaded, written := 0, [];
    ghost var before := dir.files;
    NothingWritten(j, cfg, at, before, store.objects);
    for i := 0 to |toDownload|
      invariant downloaded == |written| && AreDistinct(written)
      invariant forall key :: key in written <==>
        key in toDownload[..i] && ObjectLines(j, Split(store.objects[key])) != []
      invariant dir.files == LocalAfter(j, cfg, at, before, store.objects, written)
    {
      var key := toDownload[i];
      assert toDownload[..i + 1] == toDownload[..i] + [key];
      assert key !in toDownload[..i];
      var data := store.GetObject(key);
      var tagged, kept, dropped := TagEventLines(j, data.value, InfoOf(cfg, key, at));
      if kept == 0 {
        continue;
      }
      assert forall k :: 0 <= k < |written| ==> written[k] in written;
      WriteOneMore(j, cfg, at, before, store.objects, written, key);
      dir.files := dir.files[cfg.pathOf(key) := tagged];
      downloaded, written := downloaded + 1, written + [key];
    }
    assert toDownload[..|toDownload|] == toDownload;
  }

  lemma NothingWritten(j: Json, cfg: Config, at: string, local: Files, remote: Files)
    ensures LocalAfter(j, cfg, at, local, remote, []) == local
  {
  }

  datatype Outcome =
    | Unreachable
    | Synced(uploaded: nat, downloaded: nat, conflicts: nat, rejected: nat, entries: seq<ConflictEntry>)

  /**
   One sync run.  An unreachable store changes nothing; a dry run reports the
   conflicts and refusals and changes nothing; otherwise both stores become
   what LocalAfter, for some order of the downloads, and RemoteAfter say, and
   the counters count it.
   */
  method DoSync(j: Json, digest: Digest, cfg: Config, dir: EventDir, store: MemS3Client, at: string)
    returns (r: Outcome, ghost pairs: seq<(string, string)>, ghost written: seq<string>)
    requires IsJson(j)
    modifies dir, store
    ensures store.failing == old(store.failing)
    ensures r.Unreachable? <==> store.failing
    ensures r.Unreachable? || cfg.dryRun ==> dir.files == old(dir.files) && store.objects == old(store.objects)
    ensures r.Synced? && cfg.dryRun ==> r.uploaded == r.downloaded == 0
    ensures r.Synced? && !cfg.dryRun ==>
              && IsOrderOf(written, Downloads(j, cfg, at, old(dir.files), old(store.objects)))
              && dir.files == LocalAfter(j, cfg, at, old(dir.files), old(store.objects), written)
              && store.objects == RemoteAfter(old(dir.files), old(store.objects))
              && r.uploaded == |Uploads(old(dir.files), old(store.objects))|
              && r.downloaded == |Downloads(j, cfg, at, old(dir.files), old(store.objects))|
    ensures r.Synced? ==>
              && r.rejected == |Refused(cfg, at, old(dir.files), old(store.objects))|
              && r.conflicts == |Conflicts(j, digest, old(dir.files), old(store.objects))|
              && (forall name, key :: (name, key) in pairs <==>
                   (name, key) in Conflicts(j, digest, old(dir.files), old(store.objects)))
              && AreDistinct(pairs) && AreReports(j, digest, at, old(dir.files), old(store.objects), pairs, r.entries)
  {
    hide IsJson, Conflicts, AreReports, Refused, Allows, ObjectLines, Split, LocalAfter, RemoteAfter, Put;
    pairs, written := [], [];
    ghost var local, remote := dir.files, store.objects;
    var localIndex := dir.BuildLocalIndex(j, digest);
    var listed := store.ListObjects();
    if listed.None? {
      return Unreachable, [], [];
    }
    var metas := listed.value;
    var toUpload := PlanUploads(localIndex, store.objects.Keys, local, remote);
    var toDownload, rejected := PlanDownloads(cfg, at, localIndex, metas, local, remote);
    var conflicts, entries, found := DetectConflicts(j, digest, at, store, localIndex, metas, local);
    if cfg.dryRun {
      return Synced(0, 0, conflicts, rejected, entries), found, [];
    }
    var uploaded := UploadAll(dir, store, toUpload);
    PutIsRemoteAfter(local, remote, toUpload);
    RemoteKeepsObjects(local, remote);
    var downloaded, order := DownloadAll(j, cfg, at, dir, store, toDownload);
    WritesReadOnlyTheirObjects(j, cfg, at, local, remote, store.objects, order);
    WrittenAreDownloads(j, cfg, at, local, remote, toDownload, order);
    DistinctCount(toUpload, Uploads(local, remote));
    DistinctCount(order, Downloads(j, cfg, at, local, remote));
    return Synced(uploaded, downloaded, conflicts, rejected, entries), found, order;
  }

  lemma PutIsRemoteAfter(local: Files, remote: Files, toUpload: seq<string>)
    requires forall name :: name in toUpload <==> name in Uploads(local, remote)
    ensures Put(remote, local, toUpload) == RemoteAfter(local, remote)
  {
  }

  lemma WrittenAreDownloads(j: Json, cfg: Config, at: string, local: Files, remote: Files, toDownload: seq<string>,
      written: seq<string>)
    requires forall name :: name in toDownload <==>
             name in remote && !InLocalIndex(local, name) && Allows(cfg, name, at)
    requires forall name :: name in written <==> name in toDownload && ObjectLines(j, Split(remote[name])) != []
    ensures forall name :: name in written <==> name in Downloads(j, cfg, at, local, remote)
  {
    hide ObjectLines, Split, InLocalIndex, Allows;
  }
}
