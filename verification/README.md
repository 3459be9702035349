# Models of linkari and castex

A Dafny model of the hard logic of two programs of this repository: `linkari`
(share, score and push service) and `castex` (event sync and registry audit).
Each module states what a component promises and proves it for every input,
every run or every reachable state.  `dafny verify dfyconfig.toml` checks the
whole project.

| file | component |
|---|---|
| Forest.dfy, Clusters.dfy | union-find with path compression, tag clusters as connected components, cluster themes |
| Varint.dfy, Car.dfy | unsigned varints, CIDv1 prefixes, DAG-CBOR tag 42, the CARv1 section loop, post text of a commit |
| CarLengths.dfy | 64-bit length claims against lengths taken as they are: when the decoder panics, and when it reads what the format says |
| Lines.dfy, Provenance.dfy, Sync.dfy, SyncCommand.dfy | event lines, provenance envelopes, two-store sync and its second run |
| Paths.dfy | the local file an object key names |
| JsonModel.dfy | a codec that satisfies every law Provenance.dfy asks of the JSON library |
| Devices.dfy | the device registry with its two uniqueness constraints, and what every history leaves in it |
| RowIds.dfy, Outbox.dfy | the push outbox: one drain pass, the life of a row, and every run of the worker with pushes arriving in between |
| Quoting.dfy | shell quoting against a model of POSIX tokenising, and rendered command templates |
| Config.dfy, Routing.dfy | configuration validation and overlay, the action index, domain overrides, action resolution |
| PasteAuth.dfy | the race between pasted codes and the loopback callback for one code exchange |
| Registry.dfy | the registry mutation log of the doctor command |
| Adf.dfy, AdfText.dfy | Confluence documents to markdown, with attachments collected on the side; the text of every kind of node read back |
| Readme.dfy | appending a triage block to a README and extracting the last one |
| Text.dfy, Wrappers.dfy | string order, sorting, joining, substring search; optional values and results |

Code that updates variables, maps, arrays or tables step by step is modelled
by methods and classes whose contracts tie the new state to functions of the
old one; the properties are lemmas about those functions.  Library calls (JSON,
CBOR records, templates, regular expressions, URLs, SHA-1, the condition of an
action) are function-valued parameters.  The laws asked of the JSON library are
the predicate `Provenance.IsJson`; `JsonModel.JsonLawsAreConsistent` shows that
they can be met.  Clock readings, table contents met by a drain pass, the order
of Go's map iterations and the choices of the select loop are arbitrary.

## Where code and documentation part

The models follow the code.

- `cluster.go:172-174`: a cluster whose only common tag is "mixed" has the same
  theme as one with nothing in common (`Clusters.MixedTheme`, `Clusters.MixedByName`).
- `firehose.go:123-125` promises nil on any parse error.  Declared lengths are
  converted to a signed 64-bit int and added to an offset.  An end from 2^63 on
  becomes a bad slice bound, kept apart here as `Panic` (`CarLengths.HeaderPanics`),
  except that a header's or a digest's end from 2^64 on comes round to a small
  number, and reading goes on from there (`CarLengths.HeaderWraps`,
  `CarLengths.DigestWraps`).  `CarLengths.PanicsIff` and
  `CarLengths.ReadingIsExactIff` say exactly when either happens.
- `sync_provenance.go:80-84` says readers skip every line that is not a JSON
  object.  They index a `null` line, which the download drops; `Sync.NullShadowsDecide`
  says exactly when this makes the second run report a conflict the first did not,
  provided every remote key names the file of that name (`Paths.OwnPathIff`).
- `cmd_init.go:94` says splitLines returns trimmed non-empty lines; it returns all lines untrimmed.
- `config.go:791-793` says the profile is derived by the server and needs no
  quoting.  It is a field of the share request (`server.go:112`) that resolution
  passes through (`server.go:1315-1317`) into the template (`handler.go:657-664`);
  the slug keeps most characters of the URL (`handler.go:807-836`).  The builtin
  scoring command refers to the profile outside quotes and reads as intended
  exactly for profiles that need no quoting (`Quoting.ScoreTemplateIff`,
  `Quoting.ScoreTemplateBreaks`).  With this builtin action the rendered command
  reaches a shell only for shares of type "text", whose URL is not validated
  (`server.go:2669`); for every other type the server-score branches return first
  (`handler.go:684-716`).  `Quoting.SafeForAllIff` says which templates are right
  for every request, and `Quoting.ReadsLiterallyIff` for which requests a template
  is that refers to values outside quotes only.
- `cmd_sync.go:236` says downloads never delete local content.  The index is
  looked up by the object's key (`cmd_sync.go:194`), but the file is written at the
  cleaned path (`cmd_sync.go:254`).  So two kinds of local files can be overwritten:
  one the index does not cover, by an object of its name (`Sync.NestedFileOverwritten`),
  and an indexed one, by an object whose key spells its name differently, such as
  `./a.jsonl` (`Paths.DotKeyOverwrites`).  `Sync.SyncConverges` says exactly when a
  run overwrites a file, `Sync.KeptInEveryOrderIff` when no listing order can.  The
  second run is described for all keys by `Sync.SecondRunPlan`,
  `Sync.SecondRunConflicts` and `Sync.SameReportIff`.
- `config.go:1044-1057` says a user's non-zero fields override the builtin's.
  Five fields are not merged (`Config.OverlayHonoursIff`, `Config.ArtifactDirIgnored`), and the routing block
  of a user file is dropped (`Config.Merged`).
- `devices.go:160-163` says registration is idempotent instead of failing.  It
  fails exactly for a request without a device id whose token a legacy row holds
  (`Devices.Registry.RegisterDevice`, `Devices.RegisterAfterUpsert`); the HTTP handler never lets one through.
- `domain_route.go:86` says domain routing comes after share resolution; the
  share handler does it before (`server.go:1297-1317`), and so does `Routing.RoutingCloses`.
- `confluence_renderer.go:328-330` drops unsupported nodes; inside a list they
  leave an empty item, though never an attachment (`Adf.UnsupportedChildInvisibleIff`, `Adf.PanelInListShows`).
- `confluence_renderer.go:334` renders tables as GFM, but cells are not escaped: one
  with a vertical bar or a newline does not read back (`AdfText.TableReadsBackIff`,
  `AdfText.BarSplitsCell`).
- `cmd_sync.go:317-321` joins session and event id by a colon; a session id with a
  colon can share its key with another event (`Sync.ColonsShareKeys`).

## Model

| member | source | states |
|---|---|---|
| Forest.CompressionKeepsRoots | cmd/linkari/cluster.go:112-118 | pointing an element at its root keeps the parent array an acyclic in-range forest and every element's root |
| Forest.LinkMergesTwoTrees | cmd/linkari/cluster.go:119-124 | linking one root below another keeps the forest and merges exactly those two classes |
| Forest.Find | cmd/linkari/cluster.go:112-118 | find terminates, returns the element's root, compresses only towards it, and changes no element's root |
| Forest.Union | cmd/linkari/cluster.go:119-124 | union merges exactly the classes of its two elements under the second one's root |
| Clusters.JaccardSimilarity | cmd/linkari/cluster.go:48-72 | the counted similarity is the size of the intersection over the size of the union, 0 on two empty lists |
| Clusters.JaccardRange | cmd/linkari/cluster.go:46-72 | the similarity lies in [0,1], is 1 exactly on equal non-empty sets and 0 exactly on disjoint ones |
| Clusters.EdgeIff | cmd/linkari/cluster.go:126-139 | two items are joined directly exactly if both have tags and the tags they share number at least the threshold's part of all their tags |
| Clusters.JoinEdges | cmd/linkari/cluster.go:126-139 | after the edge loops two items have one root exactly when a chain of edges links them |
| Clusters.CollectComponents | cmd/linkari/cluster.go:141-146 | the component map lists for every root exactly its items, in order, although find keeps compressing |
| Clusters.EmitClusters | cmd/linkari/cluster.go:148-159 | whatever the map order, the classes of at least minItems items are listed once each, and no others |
| Clusters.BuildClusters | cmd/linkari/cluster.go:92-160 | the clusters are exactly the connected components of at least minItems items, each once, items in their original order |
| Clusters.InAClusterIff | cmd/linkari/cluster.go:92-94 | an item is in a cluster exactly when chains of edges link it to at least minItems items, itself included |
| Clusters.ShareAClusterIffLinked | cmd/linkari/cluster.go:92-94 | two items share a cluster exactly when a chain of edges links them and at least minItems items are linked to them |
| Clusters.ComponentsShareNothing | cmd/linkari/cluster.go:141-146 | two components with a common item are the same list, so clusters are disjoint |
| Clusters.LowerThresholdKeepsLinks | cmd/linkari/cluster.go:135-137 | items linked at a threshold are linked at every lower one: raising it only splits clusters |
| Clusters.TagIntersection | cmd/linkari/cluster.go:75-90 | the result is the sorted, repeat-free list of the tags in both inputs |
| Clusters.ClusterTheme | cmd/linkari/cluster.go:163-176 | one item keeps its tag list; two or more give the sorted common tags of all of them, "mixed" when there are none |
| Clusters.ThemeExact | cmd/linkari/cluster.go:163-176 | the theme is the sorted, repeat-free list of the tags every item carries, one item's own list, or "mixed" |
| Clusters.ThemeIgnoresOrderAndRepeats | cmd/linkari/cluster.go:163-176 | the theme of two or more items depends only on which tag sets occur, not on item order, repeated items or repeated tags |
| Clusters.MixedTheme | cmd/linkari/cluster.go:172-175 | the theme is "mixed" exactly when nothing is common or the only common tag is "mixed" |
| Clusters.MixedByName | cmd/linkari/cluster.go:172-175 | two items tagged "mixed" only have a tag in common and yet the theme of items that have none |
| Varint.RoundTrip | cmd/linkari/firehose.go:131-131 | decoding an encoded 64-bit value returns it and its length, whatever follows |
| Varint.TruncatedAfter | cmd/linkari/firehose.go:154-155 | a cut-off encoding reads as too short, never as another value |
| Varint.Canonical | cmd/linkari/firehose.go:131-131 | what the decoder accepts is encoder output exactly when it is one byte long or does not end in a zero byte |
| Car.ParseCidLen | cmd/linkari/firehose.go:70-88 | the cursor loop computes the length function, with its three errors and the 64-bit conversion |
| Car.CidRoundTrip | cmd/linkari/firehose.go:68-88 | for every CIDv1 and any suffix the length found is the CID's own |
| Car.CidTruncation | cmd/linkari/firehose.go:84-86 | every proper prefix of an encoded CID is rejected |
| Car.CidUnique | cmd/linkari/firehose.go:187-187 | encoded CIDs form a prefix code: a stream starts with at most one CID, so map keys identify CIDs |
| Car.Tag42Exact | cmd/linkari/firehose.go:93-121 | a CID is extracted exactly from inputs that begin with its short or its one-byte-length tag-42 form |
| Car.Tag42RoundTrip | cmd/linkari/firehose.go:93-121 | extraction inverts the tag-42 encoding of every CID of at most 254 bytes |
| Car.CarRoundTrip | cmd/linkari/firehose.go:130-188 | every serialised CAR is consumed exactly and gives its CID-to-record map, later sections replacing earlier ones |
| Car.CarTruncation | cmd/linkari/firehose.go:153-188 | a CAR cut between sections gives the map of the sections before the cut; cut anywhere else it is rejected |
| CarLengths.CidLenExactIff | cmd/linkari/firehose.go:80-86 | the end found for a CID is the declared one exactly when that is below 2^63 |
| CarLengths.PanicsIff | cmd/linkari/firehose.go:123-188 | on any input the loop panics exactly when walking it meets a header or digest end in [2^63, 2^64) or a section end from 2^63 on |
| CarLengths.ReadingIsExactIff | cmd/linkari/firehose.go:123-188 | on any input the loop gives the blocks or the error of a reader with unbounded lengths exactly when it does not panic and no end that wraps around is on a walk that reaches the end |
| CarLengths.HeaderPanics | cmd/linkari/firehose.go:131-154 | a header claiming 2^63 bytes ends in a panic instead of an error |
| CarLengths.HeaderWraps | cmd/linkari/firehose.go:131-188 | a header claiming 2^64-2 bytes before a 255-byte block is read as that block instead of an error |
| CarLengths.DigestWraps | cmd/linkari/firehose.go:80-87 | a digest claiming 2^64-1 bytes gives a CID that ends within its own digest length |
| Car.CollectBlocks | cmd/linkari/firehose.go:130-188 | the cursor loop over the sections computes the CID-to-record map, the error, or the panic |
| Car.CarExtractPostText | cmd/linkari/firehose.go:126-234 | nil exactly on empty or malformed blocks; otherwise each path has the text of the last operation on it that yields one |
| Car.CommitTexts | cmd/linkari/firehose.go:189-233 | from serialised CAR and writes: a path gets the text of the last write whose CID names a feed-post record; deletes and unmatched CIDs add nothing |
| Lines.SplitLines | cmd/castex/cmd_init.go:95-109 | the scan returns the lines, including blank ones |
| Lines.SplitJoin | cmd/castex/cmd_init.go:95-109 | splitting joined newline-free lines gives them back |
| Lines.JoinSplit | cmd/castex/cmd_init.go:95-109 | joining the lines gives the data back, completed by a final newline |
| Lines.SplitExact | cmd/castex/cmd_init.go:95-109 | the lines are the one list of newline-free texts that make up the completed data |
| Lines.DropCRExact | cmd/castex/cmd_sync.go:300-302 | the scanner drops one carriage return at the end of a line and no other |
| Provenance.TagEventLines | cmd/castex/sync_provenance.go:85-116 | the output is one stamped line per object line, in order; kept counts them and kept plus dropped counts the non-blank lines |
| Provenance.TaggedLines | cmd/castex/sync_provenance.go:77-84 | splitting the output again gives exactly the stamped lines |
| Provenance.StampIsAuthoritativeAndTransparent | cmd/castex/sync_provenance.go:104-137 | a stamped line reports the stamped origin whatever envelope it carried, and has the content of its source line |
| Provenance.SameContentIsSamePayload | cmd/castex/sync_provenance.go:141-167 | on object lines equal content is equality of the compacted fields without the envelope, hence an equivalence |
| Provenance.ObjectDiffersFromNull | cmd/castex/sync_provenance.go:160-167 | an object line never has the content of a null line |
| Provenance.SameTextIsSameContent | cmd/castex/sync_provenance.go:160-167 | lines that are no objects have equal content exactly when they are equal up to the space around them |
| Provenance.ProvenanceExact | cmd/castex/sync_provenance.go:118-137 | a line without an envelope is local, one whose envelope is unreadable or names no source is remote, else the envelope counts |
| Sync.IndexEvents | cmd/castex/cmd_sync.go:299-314 | each key is indexed with the last line that decodes to it, and no other key is indexed |
| Sync.KeyByFields | cmd/castex/cmd_sync.go:299-321 | the key of an event line is the digest of the texts of its session and event id fields, joined by a colon |
| Sync.SameKeyIff | cmd/castex/cmd_sync.go:317-321 | without collisions two event lines share a key exactly if those joined texts are equal; without a colon in session ids, exactly if both ids are |
| Sync.ColonsShareKeys | cmd/castex/cmd_sync.go:317-321 | with a colon in a session id different events share a key |
| Sync.IndexIsByPair | cmd/castex/cmd_sync.go:299-314 | an index holds the last line of every pair of session and event id, with its fields' texts, and one entry per pair |
| Sync.ConflictIsByPair | cmd/castex/cmd_sync.go:335-351 | a conflict is a pair of session and event id whose last lines on both sides differ in content |
| Sync.ReadSyncEvents | cmd/castex/cmd_sync.go:292-315 | local lines are indexed after the scanner dropped a trailing carriage return |
| Sync.ParseRemoteEvents | cmd/castex/cmd_sync.go:380-395 | remote lines are indexed as split |
| Sync.IndexedIff | cmd/castex/cmd_sync.go:276-276 | the index covers exactly the names that end in .jsonl and hold no slash |
| Sync.NoConflictWithItself | cmd/castex/cmd_sync.go:335-351 | a file compared with its own upload has no conflict |
| Sync.DownloadConflicts | cmd/castex/cmd_sync.go:346-351 | comparing a downloaded file with any text is comparing the object lines it came from: stamps never count |
| Sync.OwnConflicts | cmd/castex/cmd_sync.go:346-351 | an object's lines conflict with the object itself exactly under a null shadow, and then under one key |
| Sync.SyncConverges | cmd/castex/cmd_sync.go:223-262 | one run deletes nothing and keeps every remote object; a local file changes exactly if some downloaded key names it and the last such object has other stamped lines; every indexed file is then remote, every object neither refused nor object-free is in the file its key names, and nothing comes from elsewhere |
| Sync.DownloadedOrigin | cmd/castex/cmd_sync.go:199-206 | every line of a written file reports the configured remote and peer, the object's key and the time of the run |
| Sync.RefusedIff | cmd/castex/cmd_sync.go:193-211 | an object is refused exactly if it is remote-only and the filter denies that origin |
| Sync.KeptInEveryOrderIff | cmd/castex/cmd_sync.go:236-262 | a local file is kept whatever the listing order exactly when each downloaded key that names it carries the same stamped lines |
| Sync.OtherSpellingOverwrites | cmd/castex/cmd_sync.go:254-261 | an object whose key spells an indexed file's name differently replaces the file; this run reports nothing, the next what differs |
| Paths.OwnPathIff | cmd/castex/cmd_sync.go:254-254 | a key names the file of its own name exactly when it is empty or all its components are proper |
| Paths.ResolveByComponent | cmd/castex/cmd_sync.go:254-254 | cleaning goes component by component: dots and empty ones go, two dots take their parent with them |
| Paths.SamePathIff | cmd/castex/cmd_sync.go:254-254 | two keys name one file exactly when they resolve to the same components |
| Paths.JoinKeepsNames | cmd/castex/cmd_sync.go:275-289 | plain event files are their own paths |
| Paths.DotKeyOverwrites | cmd/castex/cmd_sync.go:194-261 | an object under "./" and an indexed file's name replaces that file, in every directory |
| Sync.NestedFileOverwritten | cmd/castex/cmd_sync.go:236-262 | an empty file below a subdirectory is replaced by any event file of that name |
| Sync.SecondRunPlan | cmd/castex/cmd_sync.go:175-211 | a second run uploads exactly the new plain event files that came under another spelling, refuses what the first did unless the name became a local file's, and downloads only what is no plain event file |
| Sync.SecondRunConflicts | cmd/castex/cmd_sync.go:213-215 | a second run reports for each object the first run's conflicts, or, if its file was written, those of the object it came from |
| Sync.SameReportIff | cmd/castex/cmd_sync.go:213-215 | the two reports are equal exactly when each object written to a plain event file conflicts with the remote copy of that name just where the local file did |
| Sync.NullShadowsDecide | cmd/castex/cmd_sync.go:213-215 | where every remote key names the file of its name, the second run adds one conflict per downloaded event file with a null shadow, and the reports are equal exactly without one |
| Sync.NullShadowExists | cmd/castex/sync_provenance.go:80-84 | an event without ids followed by a null line is a null shadow |
| Sync.SecondRunMovesNothing | cmd/castex/cmd_sync.go:156-272 | with plain event files only, a second run leaves both stores as they are |
| SyncCommand.MemS3Client.ListObjects | cmd/castex/cmd_sync.go:432-441 | every object is listed once, or the store is failing |
| SyncCommand.MemS3Client.PutObject | cmd/castex/cmd_sync.go:454-460 | the object is stored and no other changes; a failing store changes nothing |
| SyncCommand.EventDir.BuildLocalIndex | cmd/castex/cmd_sync.go:275-290 | exactly the plain event files are indexed, each with its own events |
| SyncCommand.CompareObject | cmd/castex/cmd_sync.go:340-376 | one entry per conflicting key, describing both versions and the winner |
| SyncCommand.DetectConflicts | cmd/castex/cmd_sync.go:323-378 | the count and the entries are those of the set of conflicting (object, key) pairs, each once |
| SyncCommand.ReportedConflict | cmd/castex/cmd_sync.go:340-376 | each entry is about the last lines of one pair, here and there: its key, ids, dates, origins and time; the remote one wins exactly if both are dated and it is earlier |
| SyncCommand.PlanUploads | cmd/castex/cmd_sync.go:175-181 | the plan lists exactly the indexed local files the remote lacks, once each |
| SyncCommand.PlanDownloads | cmd/castex/cmd_sync.go:183-211 | the plan lists exactly the allowed remote-only objects; the counter counts the refused ones |
| SyncCommand.UploadAll | cmd/castex/cmd_sync.go:223-234 | the planned files are put over the remote objects and counted |
| SyncCommand.DownloadAll | cmd/castex/cmd_sync.go:236-262 | the planned objects with an object line are written stamped, one after another, to the files their keys name, and counted; the others are skipped |
| SyncCommand.DoSync | cmd/castex/cmd_sync.go:156-272 | an unreachable store or a dry run changes nothing; otherwise both stores, the counters and the report are those of the specification |
| Devices.Registry.RegisterDevice | cmd/linkari/devices.go:141-175 | the transaction fails exactly for an empty device id with a legacy holder of the token; else the device's row is replaced, other holders of the token go, all other rows stay, both constraints hold |
| Devices.Registry.DisableDevice | cmd/linkari/devices.go:214-217 | only the device's row changes, and the device has no push token afterwards |
| Devices.Registry.LookupDeviceToken | cmd/linkari/devices.go:177-184 | the token of the device's enabled row, "" without one |
| Devices.Registry.GetDeviceToken | cmd/linkari/queue.go:2035-2045 | some registered token, "" exactly for an empty table |
| Devices.WhatTheUpsertMeets | cmd/linkari/devices.go:160-169 | what the DELETE leaves collides with the new token only in the legacy case, under three-valued logic |
| Devices.RegisterAfterUpsert | cmd/linkari/devices.go:141-175 | once the legacy endpoint stored a token, registering it succeeds exactly for a request that names a device |
| Devices.RegistrationKeepsTable | cmd/linkari/devices.go:160-169 | a registration keeps both uniqueness constraints and gives its device the new token |
| Devices.RegisteredDevice | cmd/linkari/devices.go:141-175 | the device's row carries the request's values, "android" by default, the time it first came, and the time its token last changed |
| Devices.DisabledDevice | cmd/linkari/devices.go:214-217 | disabling keeps all of the device's row but the flag and the time, and every other row |
| Devices.StepFollowsHistory | cmd/linkari/devices.go:141-217 | one registration, disabling or legacy call moves every device's token exactly as the event says |
| Devices.RunFollowsHistory | cmd/linkari/devices.go:141-217 | after any history both constraints hold and every device's push token is the one the history gives it |
| Outbox.Queue.PendingPushes | cmd/linkari/queue.go:1943-1965 | the due pending rows with the smallest ids, in order, at most limit of them, 50 for a non-positive limit |
| Outbox.Queue.Deliver | cmd/linkari/outbox.go:122-184 | one turn of the drain loop takes the row to its specified successor and makes the specified send |
| Outbox.Queue.DrainPushOutbox | cmd/linkari/outbox.go:102-186 | a pass visits the first due rows once each, changes no other row and makes exactly their sends |
| Outbox.TargetedSendsReachTheirDevice | cmd/linkari/outbox.go:131-159 | a targeted push is sent only to the token of the enabled row of its own user and device |
| Outbox.RowStaysOk | cmd/linkari/outbox.go:17-33 | whatever visits a queued row gets when due, it has at most four attempts, was parked at most 97 times, and, while pending, has waited out every backoff and park |
| Outbox.StepKeepsInv | cmd/linkari/outbox.go:102-186 | a push arriving, also within a pass, the start of a pass, one turn of it, pruning and a restart keep the invariant: every row is what its visits made of it, and rows still to visit are as they were read |
| Outbox.RunKeepsInv | cmd/linkari/outbox.go:102-186 | the invariant holds in every state of every run, whatever arrives between two turns of a pass |
| Outbox.RowsAreBounded | cmd/linkari/outbox.go:17-33 | in every reachable state a row has at most four attempts, was parked at most 97 times, and a pending one has waited out every backoff and park |
| Outbox.PassIsRun | cmd/linkari/outbox.go:102-186 | a drain pass, as specified for DrainPushOutbox, is a query and so many turns of a run |
| Outbox.FinishedIsFinal | cmd/linkari/queue.go:1942-2015 | a sent or dead row never changes again, a dead one never disappears, its id is never reused |
| Outbox.OldRowsDie | cmd/linkari/outbox.go:123-130 | in every run a row that is past 24 hours when its turn comes is dead after it |
| Outbox.SendsIff | cmd/linkari/outbox.go:122-159 | a send is made exactly on a row of at most 24 hours with a working lookup, a token and a credential |
| Outbox.TurnDecides | cmd/linkari/outbox.go:122-184 | in every run a turn finds its row pending and moves it, and no other, by one clause: too old dead, lookup failed as it was, no token dead if targeted and else due in 900 s, sent, retried after 30, 120, 600 or 3600 s, or dead after the fifth failure |
| Outbox.SentIff | cmd/linkari/outbox.go:180-180 | a row becomes sent exactly by a turn whose send succeeds |
| Outbox.OneSuccess | cmd/linkari/queue.go:1968-1975 | over a run each id has at most one successful send |
| Outbox.QueuedIsDue | cmd/linkari/queue.go:1763-1775 | a push is pending, without attempts and due from the second it is queued |
| Outbox.PushCanBeSent | cmd/linkari/outbox.go:102-186 | for every deliverable push there is a run that queues, reads and sends it |
| Outbox.PrunedIff | cmd/linkari/queue.go:2008-2015 | a row is pruned exactly if it was sent and last written more than seven days ago |
| Outbox.FailureSchedule | cmd/linkari/outbox.go:25-33 | a row whose sends all fail, with parks and failed lookups in between, is due again 30 s, 2 min, 10 min, 1 h after its failures, still has the other attempts, and dies of the fifth failure, at least 4350 s after it was queued |
| Quoting.QuoteRoundTrip | cmd/linkari/handler.go:799-804 | outside quotes a quoted string appends exactly its own text to the word in progress and ends outside quotes |
| Quoting.QuoteIsOneWord | cmd/linkari/handler.go:799-804 | standing alone a quoted string is one word equal to the input |
| Quoting.QuotingIsSafeIff | cmd/linkari/handler.go:799-804 | after any text, quoting is right for every string exactly where the lexer is outside quotes and escapes |
| Quoting.RenderedAsIntended | cmd/linkari/config.go:1010-1023 | a command whose values are each read literally lexes as if every value were literal text |
| Quoting.ReadsLiterallyIff | cmd/linkari/config.go:786-799 | for a template that refers to values outside quotes, a request's values are read literally exactly when the profile and slug used need no quoting |
| Quoting.SafeForAllIff | cmd/linkari/config.go:1007-1023 | a rendered command reads as intended for all values exactly when the template refers to them outside quotes only, and not to the profile or the slug |
| Quoting.ScoreTemplateIff | cmd/linkari/config.go:1188-1188 | the builtin scoring command reads as intended exactly for a non-empty profile without a blank, quote, backslash or special character |
| Quoting.ScoreTemplateBreaks | cmd/linkari/config.go:1188-1188 | with a quotation mark for a profile the text of the URL is read as shell syntax |
| Config.Validate | cmd/linkari/config.go:909-982 | validation succeeds exactly on named, unrepeated actions without a problem, and only fills in missing kinds |
| Config.AcceptedIff | cmd/linkari/config.go:922-979 | an action is accepted exactly when its kind is known and has compiling sources, only a capture action has a post-capture command, and launching by itself has a positive threshold |
| Config.OverlayHonoursIff | cmd/linkari/config.go:1116-1171 | every field the user sets overrides the builtin's exactly when none of five unmerged fields is set to something else |
| Config.OverlayInherits | cmd/linkari/config.go:1116-1171 | every field the user leaves out keeps the builtin's value |
| Config.MergedFields | cmd/linkari/config.go:1087-1171 | in the merge a builtin without a user action is kept; with one, the last of its id, it inherits what that leaves out, takes each merged field it sets, and takes all it sets exactly if the unmerged ones agree |
| Config.ArtifactDirIgnored | cmd/linkari/config.go:1116-1171 | a valid override of a builtin capture action's artifact directory changes nothing |
| Config.MergeActions | cmd/linkari/config.go:1087-1108 | the loops compute builtins overlaid in place, then the user-only actions |
| Config.MergeWithBuiltin | cmd/linkari/config.go:1061-1114 | the merge succeeds exactly when the merged actions are valid, and returns them with the merged scalars and no routing block |
| Config.MergedScalars | cmd/linkari/config.go:1072-1085 | the user's scalars win where set, the builtin's stay elsewhere, and the routing block is dropped |
| Config.MergeOrder | cmd/linkari/config.go:1047-1052 | builtins first, in order and with their ids, then the user actions with other ids, verbatim, in the user's order and as often as listed |
| Config.MergeIsIdempotent | cmd/linkari/config.go:1061-1171 | merging a merged configuration over the same builtins again succeeds and changes nothing |
| Routing.Router.LoadConfig | cmd/linkari/handler.go:284-304 | the actions become those without a condition or with a met one, in order, with the default threshold filled in; with unique ids the index holds exactly them |
| Routing.ResolveDomainRoute | cmd/linkari/domain_route.go:48-71 | the first matching rule overrides the action, or is reported when its action is unknown; without a match nothing changes |
| Routing.ValidateDomainRoutes | cmd/linkari/domain_route.go:76-83 | the check passes exactly when every rule's action is registered |
| Routing.DomainRoutesSucceed | cmd/linkari/domain_route.go:48-71 | with validated rules the override succeeds and yields the request or a registered action |
| Routing.ResolvedAction | cmd/linkari/handler.go:503-572 | the action is the caller's, unless only its "_auto" form is registered |
| Routing.ResolvedProfile | cmd/linkari/handler.go:503-572 | a non-empty profile is kept; an empty one becomes what follows the action's first underscore for "prefix", the classifier's for "auto" with heuristics on a registered action, else it stays empty |
| Routing.ResolveTwice | cmd/linkari/handler.go:503-572 | resolving a routable request gives a registered action, and resolving the result again without heuristics is the identity |
| Routing.RoutingCloses | cmd/linkari/server.go:1297-1317 | with validated rules every routable request passes override and resolution, and Route finds its action among the listed ones |
| Routing.UnknownStaysUnknown | cmd/linkari/handler.go:561-571 | an unroutable request is handed through unchanged and is not found |
| PasteAuth.AcceptedCodes | cmd/linkari/cmd_auth_youtube.go:221-258 | a URL is accepted exactly with a non-empty code and the generated state, any other text exactly without blanks and with 16 bytes, and the state is blamed exactly for a URL with a code and another state |
| PasteAuth.WrappedPaste | cmd/linkari/cmd_auth_youtube.go:228-230 | space around a paste and quotation marks inside the space do not count |
| Text.ContainsIff | cmd/linkari/cmd_auth_youtube.go:235-235 | a paste is of URL form exactly if "://" stands somewhere in it |
| Text.ByteLengthExact | cmd/linkari/cmd_auth_youtube.go:254-254 | the length of a bare code counts the bytes of its characters |
| PasteAuth.FirstAcceptable | cmd/linkari/cmd_auth_youtube.go:197-219 | if one of the first three lines is acceptable the events end with the code of the first such line |
| PasteAuth.PasteAcceptLoop | cmd/linkari/cmd_auth_youtube.go:202-219 | the reader sends the events of its lines, stopping at the first code or the third bad paste |
| PasteAuth.EventsShape | cmd/linkari/cmd_auth_youtube.go:197-219 | at most three events, rejections numbered from one, an accepted code only last and only if a line parses to it |
| PasteAuth.StepKeepsInv | cmd/linkari/cmd_auth_youtube.go:322-408 | every step of reader, callback handler and select loop keeps the invariant |
| PasteAuth.RunKeepsInv | cmd/linkari/cmd_auth_youtube.go:322-408 | the invariant holds in every state of every interleaving |
| PasteAuth.ReaderNeverBlocks | cmd/linkari/cmd_auth_youtube.go:364-368 | the paste channel always has room for what the reader still has to send |
| PasteAuth.RaceIsSafe | cmd/linkari/cmd_auth_youtube.go:374-408 | at most one exchange, ending the login, with a code its source was entitled to; the login failed for bad pastes exactly when the input starts with three of them and the third was read |
| PasteAuth.ExchangedCode | cmd/linkari/cmd_auth_youtube.go:374-408 | a loopback code came in a request with the generated state and no error, a pasted one in an acceptable line |
| PasteAuth.ReceivingDecides | cmd/linkari/cmd_auth_youtube.go:374-408 | whatever the loop receives decides the outcome, but for a bad paste before the third |
| PasteAuth.AcceptableCanWin | cmd/linkari/cmd_auth_youtube.go:364-408 | there is a run in which the first acceptable line of three wins |
| PasteAuth.BadPastesCanFail | cmd/linkari/cmd_auth_youtube.go:364-408 | there is a run in which three bad pastes end the login |
| PasteAuth.CallbackCanWin | cmd/linkari/cmd_auth_youtube.go:322-408 | there is a run in which a callback with the generated state wins |
| PasteAuth.OutcomeIsFinal | cmd/linkari/cmd_auth_youtube.go:384-408 | once decided the outcome and the exchange stay |
| Registry.DiffRegistryAgents | cmd/castex/cmd_doctor_mutation.go:77-116 | the events name exactly the ids that came and went, once each, additions first; one "updated" event exactly when none did |
| Registry.DoctorFiles.CheckRegistry | cmd/castex/cmd_doctor.go:171-192 | an unchanged hash changes nothing, the first reading seeds the state, any other is saved and its difference logged |
| Registry.StateFollowsReadings | cmd/castex/cmd_doctor.go:171-192 | after any runs the saved state is that of the latest reading |
| Registry.ReplayGivesLatestAgents | cmd/castex/cmd_doctor.go:171-192 | replaying all logged events over the first reading's agents gives the latest reading's agents |
| Registry.UpdatedIff | cmd/castex/cmd_doctor_mutation.go:107-114 | "updated" is logged exactly when the file changed and its agents did not; added and removed ids are disjoint |
| Text.AtMostIff | cmd/castex/cmd_doctor_mutation.go:168-174 | strings are sorted by their first difference, a prefix first |
| Adf.RenderNode | cmd/linkari/confluence_renderer.go:147-332 | the text does not depend on the attachments collected before, which are kept and extended by those of the visited media nodes in preorder; there is none exactly when a visited heading has a negative level |
| Adf.RenderTable | cmd/linkari/confluence_renderer.go:335-362 | rows and attachments come from the cells of the table's rows only |
| AdfText.TableText | cmd/linkari/confluence_renderer.go:335-396 | a table's lines are its header row, a separator, the other rows and an empty one; it reads back exactly when no cell holds a newline or a vertical bar |
| AdfText.RowsInOrder | cmd/linkari/confluence_renderer.go:343-362 | a table has one row per tableRow child, in order |
| AdfText.SeparatorPieces | cmd/linkari/confluence_renderer.go:377-383 | the separator has one dash cell per header cell |
| AdfText.BarSplitsCell | cmd/linkari/confluence_renderer.go:370-391 | a cell with a vertical bar does not read back |
| AdfText.ListText | cmd/linkari/confluence_renderer.go:237-251 | a list is one bullet with its item's text per child, and an empty line |
| AdfText.QuoteText | cmd/linkari/confluence_renderer.go:225-235 | every line of a blockquote's text is marked, then comes an empty line |
| AdfText.HeadingText | cmd/linkari/confluence_renderer.go:164-182 | as many hash signs as the level, a blank, the children's texts, an empty line |
| AdfText.PlainTextText | cmd/linkari/confluence_renderer.go:184-207 | marked text stands between its marks, the first one outermost |
| AdfText.OtherTexts | cmd/linkari/confluence_renderer.go:149-332 | what stands around, or instead of, the children's texts of every other kind |
| AdfText.VisitedBelow | cmd/linkari/confluence_renderer.go:147-332 | which nodes are visited below a node, by its kind |
| AdfText.VisitedInOrder | cmd/linkari/confluence_renderer.go:149-161 | a node's children are visited one after another |
| AdfText.RowsVisitedInOrder | cmd/linkari/confluence_renderer.go:343-362 | below a table only the cells of its rows are looked into, in order |
| AdfText.CellsVisitedInOrder | cmd/linkari/confluence_renderer.go:348-358 | below a cell all children are visited, cell by cell |
| AdfText.ConcatExact | cmd/linkari/confluence_renderer.go:149-161 | the children's texts are put together in order, none lost |
| AdfText.CellTexts | cmd/linkari/confluence_renderer.go:348-358 | a cell holds its children's texts without the newlines and blanks at the end |
| AdfText.TrimEndExact | cmd/linkari/confluence_renderer.go:357-357 | trimming takes away exactly the trailing newlines and blanks |
| AdfText.AttachmentOf | cmd/linkari/confluence_renderer.go:272-291 | a media node's attachment is its alt text, or else its id |
| Adf.UnsupportedChildInvisibleIff | cmd/linkari/confluence_renderer.go:328-330 | an unsupported child leaves no trace in its parent's text exactly when the parent is no list |
| Adf.UnsupportedChildAttachesNothing | cmd/linkari/confluence_renderer.go:328-330 | an unsupported child never changes its parent's attachments |
| Adf.PanelInListShows | cmd/linkari/confluence_renderer.go:237-243 | a bullet list with only a panel in it shows an empty item |
| Readme.TriageRoundTripIff | cmd/linkari/cmd_eval.go:638-646 | extracting after appending returns the block trimmed, whatever the README held, exactly when the newline-wrapped block contains no separator |
| Readme.SeparatorsAfterAppend | cmd/linkari/cmd_triage.go:948-959 | beyond the prior text the written file has no separators but the appended one and those inside the wrapped block |

## Left out

- Clusters.BuildClusters: compares the exact ratio with a real threshold; float64 rounding of the quotient is not modelled, and parseTags is a parameter.
- Clusters.ClusterTheme: storing clusters and the seven-day window of detectClusters are not modelled.
- Varint.RoundTrip: binary.Uvarint is a library function, modelled by its documented result rather than by its loop.
- CarLengths.PanicsIff: inputs are shorter than 2^63 bytes, as every Go slice is.
- Car.CarExtractPostText: decoding of record CBOR is a parameter; logging is left out; a panic is a result value instead of an abort.
- Provenance.TagEventLines: Go's case-insensitive field matching and repeated JSON keys are excluded by taking a line's fields as one map.
- SyncCommand.DoSync: file-system errors (among them keys that name a directory), the scanner's line limit, glob characters in the directory's name, the timeout wrapper RunSync and the conflict log file are not modelled.
- Paths.OwnPathIff: the directory is absolute and clean; symbolic links and file systems that fold case are not modelled.
- SyncCommand.MemS3Client.ListObjects: content tags are the empty ones of the in-memory store; a real S3 client is not wired in the source either.
- Devices.Registry.RegisterDevice: SQLite's upsert is modelled by its contract, conflict target first; transaction errors and the HTTP handler's JSON handling are left out.
- Outbox.Queue.DrainPushOutbox: failing status updates, which the code ignores, and the payload columns of a row are not modelled; the worker's own clock never runs backwards.
- Outbox.Queue.Enqueue: the digest throttle and the other insert variants are not modelled.
- Quoting.QuoteRoundTrip: stated against POSIX quoting, not fish; a character that may need quoting counts as special wherever it stands bare, an expansion inside double quotes is only marked as one, and NUL characters are not modelled.
- Quoting.RenderedAsIntended: templates are literal text and references; control structures and functions of text/template are not modelled.
- Quoting.ReadsLiterallyIff: which single requests suit a template that refers to values inside quotes is not stated; no such template suits every request.
- Quoting.SafeForAllIff: ranges over all template data; that the match is a part of the text or the URL, and the slug at most 50 bytes derived from the URL, is not modelled.
- Config.Validate: error texts, compiled template and regex caches, and the partly updated action list of a failing call are not captured.
- Config.MergeWithBuiltin: the server block and the routing block are opaque values; reading and expanding the TOML file are left out.
- Routing.ResolveDomainRoute: the request is a value and the new request a result, so the assignment through the pointer is not captured; emitted events are left out.
- Routing.Router.LoadConfig: the read-write mutex and the tmux sessions are not modelled.
- PasteAuth.PasteAcceptLoop: input is a finite list of lines; the scanner's 64 KiB limit and the reader left blocked on a terminal are not modelled.
- PasteAuth.RaceIsSafe: the token exchange itself is one step; its network error is not told apart from success.
- Registry.DoctorFiles.CheckRegistry: an unreadable state file and failing saves are not modelled; equal hashes are taken to mean equal agent sets.
- Adf.RenderNode: attributes are taken with their fall-back values; a heading level too large for memory, on which the code panics as well, is not modelled, and the attachments collected before a panic are not specified.
- Readme.TriageRoundTripIff: file access is left out; the file is its text.
- HTTP handlers and clients, OAuth, AWS, tsnet, tmux, WebSocket and FCM code: foreign calls without a property of their own.
- Scoring, retry policy, routing thresholds and the other small case splits: they would only add easy members.
- The consensus quorum package, chain index building and bmux internals are not part of this model.
