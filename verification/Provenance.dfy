/**
 Event lines and their provenance envelope: stamping on download, reading an
 envelope back, and comparing two lines blind to it.
 */
module Provenance {
  import opened Lines
  import opened Wrappers

  const LOCAL := "local"
  const REMOTE := "remote"

  datatype Info = Info(source: string, remote: string, peer: string, objectKey: string, etag: string, syncedAt: string)

  const PROVENANCE_FIELD := "_castex_provenance"

  type Fields = map<string, string>

  /** What decoding a line into a map of raw values yields: an error, a nil map, or an object. */
  datatype Doc = Bad | Null | Object(fields: Fields)

  /**
   encoding/json as the sync code uses it: decoding a line, encoding an object
   (None on an error), compacting a raw value as the encoder does, decoding a
   raw value as a string, and writing and reading an envelope.
   */
  datatype Json = Json(
    parse: string -> Doc,
    encode: Fields -> Option<string>,
    isRaw: string -> bool,
    compact: string -> string,
    text: string -> Option<string>,
    writeInfo: Info -> string,
    readInfo: string -> Option<Info>)

  ghost predicate AreRaw(j: Json, m: Fields) {
    forall k :: k in m ==> j.isRaw(m[k])
  }

  function Compacted(j: Json, m: Fields): Fields {
    map k | k in m :: j.compact(m[k])
  }

  /** Decoding keeps to raw values and does not mind a carriage return or surrounding space. */
  ghost predicate ParsesJson(j: Json) {
    && (forall line :: j.parse(line).Object? ==> AreRaw(j, j.parse(line).fields))
    && (forall line :: j.parse(DropCR(line)) == j.parse(line))
    && (forall line :: j.parse(line) != Bad ==> j.parse(TrimSpace(line)) == j.parse(line))
    && (forall line :: j.parse(line) != Bad ==> !IsBlank(line))
    && (forall line :: j.parse(line) == Null ==> TrimSpace(line) == "null")
  }

  /** Encoding an object of raw values compacts them, and decoding the one-line result gives them back. */
  ghost predicate EncodesJson(j: Json) {
    && (forall m :: AreRaw(j, m) ==> j.encode(m).Some? && j.parse(j.encode(m).value) == Object(Compacted(j, m)))
    && (forall m, n :: AreRaw(j, m) && AreRaw(j, n) && Compacted(j, m) == Compacted(j, n) ==>
         j.encode(m) == j.encode(n))
    && (forall m :: j.encode(m).Some? ==> '\n' !in j.encode(m).value)
    && (forall v :: j.compact(j.compact(v)) == j.compact(v))
    && (forall v :: j.text(j.compact(v)) == j.text(v))
  }

  ghost predicate StampsJson(j: Json) {
    forall i :: j.isRaw(j.writeInfo(i)) && j.readInfo(j.compact(j.writeInfo(i))) == Some(i)
  }

  ghost predicate IsJson(j: Json) {
    ParsesJson(j) && EncodesJson(j) && StampsJson(j)
  }

  // ------------------------------------------------------------ tagEventLines

  predicate IsObjectLine(j: Json, line: string) {
    !IsBlank(line) && j.parse(line).Object?
  }

  /** The object of a line under a new envelope, whatever envelope it carried. */
  function Stamp(j: Json, line: string, info: Info): string
    requires IsObjectLine(j, line)
  {
    match j.encode(j.parse(line).fields[PROVENANCE_FIELD := j.writeInfo(info)])
    case Some(enc) => enc
    case None => ""
  }

  /** The object lines, in order. */
  function ObjectLines(j: Json, lines: seq<string>): (r: seq<string>)
    ensures forall l :: l in r ==> l in lines && IsObjectLine(j, l)
  {
    if lines == [] then []
    else
      var last := lines[|lines| - 1];
      ObjectLines(j, lines[..|lines| - 1]) + if IsObjectLine(j, last) then [last] else []
  }

  function CountNonBlank(lines: seq<string>): nat {
    if lines == [] then 0 else CountNonBlank(lines[..|lines| - 1]) + if IsBlank(lines[|lines| - 1]) then 0 else 1
  }

  function Stamped(j: Json, lines: seq<string>, info: Info): (r: seq<string>)
    requires forall l :: l in lines ==> IsObjectLine(j, l)
    ensures |r| == |lines| && forall i :: 0 <= i < |r| ==> r[i] == Stamp(j, lines[i], info)
  {
    seq(|lines|, i requires 0 <= i < |lines| => assert lines[i] in lines; Stamp(j, lines[i], info))
  }

  function TaggedOf(j: Json, lines: seq<string>, info: Info): string {
    JoinLines(Stamped(j, ObjectLines(j, lines), info))
  }

  /** The file content a download writes for an object's data. */
  function Tagged(j: Json, data: string, info: Info): string {
    TaggedOf(j, Split(data), info)
  }

  lemma StampIsEncoded(j: Json, line: string, info: Info)
    requires IsJson(j) && IsObjectLine(j, line)
    ensures var m := j.parse(line).fields[PROVENANCE_FIELD := j.writeInfo(info)];
            AreRaw(j, m) && j.encode(m) == Some(Stamp(j, line, info)) &&
              j.parse(Stamp(j, line, info)) == Object(Compacted(j, m))
    ensures '\n' !in Stamp(j, line, info) && IsObjectLine(j, Stamp(j, line, info))
  {
  }

  lemma {:induction false} JoinOneMore(lines: seq<string>, line: string)
    ensures JoinLines(lines + [line]) == JoinLines(lines) + (line + "\n")
  {
    if lines != [] {
      JoinOneMore(lines[1..], line);
      assert (lines + [line])[1..] == lines[1..] + [line];
    } else {
      JoinFirst(line, []);
      assert lines + [line] == [line] + [];
    }
  }

  lemma TagOneMore(j: Json, lines: seq<string>, line: string, info: Info)
    ensures |ObjectLines(j, lines + [line])| == |ObjectLines(j, lines)| + if IsObjectLine(j, line) then 1 else 0
    ensures TaggedOf(j, lines + [line], info) ==
            TaggedOf(j, lines, info) + if IsObjectLine(j, line) then Stamp(j, line, info) + "\n" else ""
    ensures CountNonBlank(lines + [line]) == CountNonBlank(lines) + if IsBlank(line) then 0 else 1
  {
    hide Stamp, JoinLines, TrimSpace;
    var objects := ObjectLines(j, lines);
    assert (lines + [line])[..|lines|] == lines;
    if IsObjectLine(j, line) {
      assert ObjectLines(j, lines + [line]) == objects + [line];
      assert Stamped(j, objects + [line], info) == Stamped(j, objects, info) + [Stamp(j, line, info)];
      JoinOneMore(Stamped(j, objects, info), Stamp(j, line, info));
    } else {
      assert objects + [] == objects && TaggedOf(j, lines, info) + "" == TaggedOf(j, lines, info);
    }
  }

  lemma NoLinesYet(j: Json, info: Info)
    ensures TaggedOf(j, [], info) == "" && ObjectLines(j, []) == [] && CountNonBlank([]) == 0
  {
  }

  method TagEventLines(j: Json, data: string, info: Info) returns (tagged: string, kept: nat, dropped: nat)
    requires IsJson(j)
    ensures tagged == Tagged(j, data, info)
    ensures kept == |ObjectLines(j, Split(data))|
    ensures kept + dropped == CountNonBlank(Split(data))
  {
    hide Stamp, IsJson, TaggedOf, ObjectLines, CountNonBlank;
    NoLinesYet(j, info);
    var stamp := j.writeInfo(info);
    tagged, kept, dropped := "", 0, 0;
    var lines := SplitLines(data);
    for i := 0 to |lines|
      invariant tagged == TaggedOf(j, lines[..i], info)
      invariant kept == |ObjectLines(j, lines[..i])|
      invariant kept + dropped == CountNonBlank(lines[..i])
    {
      var line := lines[i];
      assert lines[..i + 1] == lines[..i] + [line];
      TagOneMore(j, lines[..i], line, info);
      if |TrimSpace(line)| == 0 {
        continue;
      }
      match j.parse(line)
      case Bad => dropped := dropped + 1;
      case Null => dropped := dropped + 1;
      case Object(m) =>
        StampIsEncoded(j, line, info);
        match j.encode(m[PROVENANCE_FIELD := stamp]) {
          case None => assert false;
          case Some(enc) =>
            assert tagged + enc + "\n" == tagged + (enc + "\n");
            tagged := tagged + enc + "\n";
            kept := kept + 1;
        }
    }
    assert lines[..|lines|] == lines;
  }

  /** Re-splitting what was written gives one stamped line per object line, in order. */
  lemma TaggedLines(j: Json, data: string, info: Info)
    requires IsJson(j)
    ensures Split(Tagged(j, data, info)) == Stamped(j, ObjectLines(j, Split(data)), info)
  {
    var lines := Stamped(j, ObjectLines(j, Split(data)), info);
    forall l | l in lines ensures '\n' !in l {
      var i :| 0 <= i < |lines| && lines[i] == l;
      assert ObjectLines(j, Split(data))[i] in ObjectLines(j, Split(data));
      StampIsEncoded(j, ObjectLines(j, Split(data))[i], info);
    }
    SplitJoin(lines);
  }

  // ------------------------------------------------- reading envelopes back

  /** No envelope means local; an unreadable one means remote. */
  function ProvenanceOf(j: Json, raw: string): Info {
    var doc := j.parse(raw);
    if !doc.Object? || PROVENANCE_FIELD !in doc.fields then Plain(LOCAL)
    else
      var info := j.readInfo(doc.fields[PROVENANCE_FIELD]);
      if info.None? || info.value.source == "" then Plain(REMOTE) else info.value
  }

  function Plain(source: string): Info {
    Info(source, "", "", "", "", "")
  }

  function CanonicalEventContent(j: Json, raw: string): Option<string> {
    match j.parse(raw)
    case Object(m) => j.encode(m - {PROVENANCE_FIELD})
    case _ => None
  }

  predicate SameEventContent(j: Json, a: string, b: string) {
    var ca, cb := CanonicalEventContent(j, a), CanonicalEventContent(j, b);
    if ca.None? || cb.None? then TrimSpace(a) == TrimSpace(b) else ca == cb
  }

  /** The payload of an object: its fields without the envelope, compacted. */
  ghost function Payload(j: Json, m: Fields): Fields {
    Compacted(j, m - {PROVENANCE_FIELD})
  }

  lemma SameEncodingIsSameCompacted(j: Json, m: Fields, n: Fields)
    requires EncodesJson(j) && AreRaw(j, m) && AreRaw(j, n)
    ensures j.encode(m).Some? && (j.encode(m) == j.encode(n) <==> Compacted(j, m) == Compacted(j, n))
  {
    hide Compacted;
    assert j.parse(j.encode(m).value) == Object(Compacted(j, m));
    assert j.parse(j.encode(n).value) == Object(Compacted(j, n));
  }

  /** On object lines, equal content is equal payload, so it is an equivalence. */
  lemma SameContentIsSamePayload(j: Json, a: string, b: string)
    requires IsJson(j) && j.parse(a).Object? && j.parse(b).Object?
    ensures SameEventContent(j, a, b) <==> Payload(j, j.parse(a).fields) == Payload(j, j.parse(b).fields)
  {
    hide EncodesJson, ParsesJson, AreRaw, Compacted, TrimSpace;
    var m, n := j.parse(a).fields - {PROVENANCE_FIELD}, j.parse(b).fields - {PROVENANCE_FIELD};
    PayloadIsRaw(j, a);
    PayloadIsRaw(j, b);
    SameEncodingIsSameCompacted(j, m, n);
    SameEncodingIsSameCompacted(j, n, m);
  }

  lemma PayloadIsRaw(j: Json, line: string)
    requires IsJson(j) && j.parse(line).Object?
    ensures AreRaw(j, j.parse(line).fields - {PROVENANCE_FIELD})
  {
  }

  /** An object line never has the content of a line that is no object. */
  lemma ObjectDiffersFromNull(j: Json, a: string, b: string)
    requires IsJson(j) && j.parse(a).Object? && j.parse(b) == Null
    ensures !SameEventContent(j, a, b)
  {
    assert j.parse(TrimSpace(a)) != j.parse(TrimSpace(b));
  }

  /**
   A stamp is authoritative and transparent: the stamped line reports exactly
   the stamped origin, even if the line carried an envelope of its own, and
   still has the content of its source.
   */
  lemma StampIsAuthoritativeAndTransparent(j: Json, line: string, info: Info)
    requires IsJson(j) && IsObjectLine(j, line) && info.source != ""
    ensures ProvenanceOf(j, Stamp(j, line, info)) == info
    ensures SameEventContent(j, Stamp(j, line, info), line)
  {
    hide Stamp, SameEventContent, EncodesJson, ParsesJson;
    StampIsEncoded(j, line, info);
    SameContentIsSamePayload(j, Stamp(j, line, info), line);
    PayloadOfStamped(j, j.parse(line).fields, j.writeInfo(info));
  }

  lemma PayloadOfStamped(j: Json, m: Fields, stamp: string)
    requires EncodesJson(j)
    ensures Payload(j, Compacted(j, m[PROVENANCE_FIELD := stamp])) == Payload(j, m)
  {
  }

  /**
   Where a line says it comes from: without an envelope, here; with one that
   cannot be read or names no source, from some remote; else what it says.
   */
  lemma ProvenanceExact(j: Json, raw: string)
    ensures var blank := Info("", "", "", "", "", "");
            match j.parse(raw)
            case Object(m) =>
              if PROVENANCE_FIELD !in m then ProvenanceOf(j, raw) == blank.(source := "local")
              else if j.readInfo(m[PROVENANCE_FIELD]).Some? && j.readInfo(m[PROVENANCE_FIELD]).value.source != ""
              then ProvenanceOf(j, raw) == j.readInfo(m[PROVENANCE_FIELD]).value
              else ProvenanceOf(j, raw) == blank.(source := "remote")
            case _ => ProvenanceOf(j, raw) == blank.(source := "local")
  {
  }

  /** Lines that are no objects have equal content exactly when they are equal up to space around them. */
  lemma SameTextIsSameContent(j: Json, a: string, b: string)
    requires !j.parse(a).Object? || !j.parse(b).Object?
    ensures SameEventContent(j, a, b) <==> TrimSpace(a) == TrimSpace(b)
  {
  }
}
