/**
 Post text from an ATProto commit: CIDv1 prefixes, DAG-CBOR tag 42, and the
 section loop over CARv1 blocks (IPLD CARv1, "Header" and "Data").
 */
module Car {
  import opened Varint
  import opened Wrappers

  // ------------------------------------------------------------------ CIDv1

  datatype CidError = BadVarint | BadDigestLength | CidTruncated
  datatype CidLength = Length(n: int) | Invalid(error: CidError)

  /** Where k consecutive varints starting at n end. */
  function SkipVarints(data: seq<byte>, n: nat, k: nat): (r: Option<nat>)
    requires n <= |data|
    ensures r.Some? ==> n <= r.value <= |data|
    decreases k
  {
    if k == 0 then Some(n)
    else
      var (_, size) := Uvarint(data[n..]);
      if size <= 0 then None else SkipVarints(data, n + size, k - 1)
  }

  /** The specification of parseCIDLen, with Go's conversion of the digest length. */
  function CidLen(data: seq<byte>): CidLength {
    match SkipVarints(data, 0, 3)
    case None => Invalid(BadVarint)
    case Some(n) =>
      var (digestLen, size) := Uvarint(data[n..]);
      if size <= 0 then Invalid(BadDigestLength)
      else
        var end := ToInt(n + size + digestLen);
        if end > |data| then Invalid(CidTruncated) else Length(end)
  }

  method ParseCidLen(data: seq<byte>) returns (r: CidLength)
    ensures r == CidLen(data)
  {
    hide ToInt, UvarintAfter;
    var n: nat := 0;
    for i := 0 to 3
      invariant n <= |data|
      invariant SkipVarints(data, 0, 3) == SkipVarints(data, n, 3 - i)
    {
      var (_, size) := Uvarint(data[n..]);
      if size <= 0 {
        return Invalid(BadVarint);
      }
      n := n + size;
    }
    var (digestLen, size) := Uvarint(data[n..]);
    if size <= 0 {
      return Invalid(BadDigestLength);
    }
    var end := ToInt(n + ToInt(size + ToInt(digestLen)));
    assert end == ToInt(n + size + digestLen) by {
      ToIntOfSum(size, digestLen);
      ToIntOfSum(n, size + digestLen);
    }
    if end > |data| {
      return Invalid(CidTruncated);
    }
    return Length(end);
  }

  datatype Cid = Cid(version: nat, codec: nat, hashCode: nat, digest: seq<byte>)

  /** Values fit the varint format, and the digest fits in memory. */
  predicate IsCid(c: Cid) {
    c.version < TWO_64 && c.codec < TWO_64 && c.hashCode < TWO_64 && |c.digest| < TWO_63 - 40
  }

  function EncodeAll(values: seq<nat>): seq<byte> {
    if values == [] then [] else Encode(values[0]) + EncodeAll(values[1..])
  }

  /** The three numbers that precede the digest. */
  function Prefix(c: Cid): seq<nat> {
    [c.version, c.codec, c.hashCode]
  }

  function EncodeCid(c: Cid): seq<byte> {
    EncodeAll(Prefix(c)) + Encode(|c.digest|) + c.digest
  }

  ghost predicate Fit(values: seq<nat>) {
    forall k :: 0 <= k < |values| ==> values[k] < TWO_64
  }

  lemma {:induction false} SkipsEncoded(data: seq<byte>, n: nat, values: seq<nat>, rest: seq<byte>)
    requires Fit(values) && n <= |data| && data[n..] == EncodeAll(values) + rest
    ensures SkipVarints(data, n, |values|) == Some(n + |EncodeAll(values)|)
    ensures |EncodeAll(values)| <= 10 * |values|
    decreases |values|
  {
    if values != [] {
      var size := |Encode(values[0])|;
      var tail := EncodeAll(values[1..]) + rest;
      assert data[n..] == Encode(values[0]) + tail;
      RoundTrip(values[0], tail);
      assert data[n + size..] == data[n..][size..] == tail;
      SkipsEncoded(data, n + size, values[1..], rest);
    }
  }

  lemma {:induction false} SkippingCutShort(data: seq<byte>, n: nat, values: seq<nat>, k: nat)
    requires Fit(values) && n <= |data| && k < |EncodeAll(values)| && data[n..] == EncodeAll(values)[..k]
    ensures SkipVarints(data, n, |values|) == None
    decreases |values|
  {
    if values != [] {
      var size := |Encode(values[0])|;
      if k < size {
        assert data[n..] == Encode(values[0])[..k];
        TruncatedAfter(values[0], k, 0);
      } else {
        var tail := EncodeAll(values[1..])[..k - size];
        assert data[n..] == Encode(values[0]) + tail;
        RoundTrip(values[0], tail);
        assert data[n + size..] == data[n..][size..] == tail;
        SkippingCutShort(data, n + size, values[1..], k - size);
      }
    }
  }

  /** parseCIDLen finds exactly the end of a CID, whatever follows it. */
  lemma CidRoundTrip(c: Cid, rest: seq<byte>)
    requires IsCid(c)
    ensures CidLen(EncodeCid(c) + rest) == Length(|EncodeCid(c)|)
  {
    var data := EncodeCid(c) + rest;
    var tail := Encode(|c.digest|) + (c.digest + rest);
    assert data == EncodeAll(Prefix(c)) + tail;
    AfterThePrefix(c, tail);
    RoundTrip(|c.digest|, c.digest + rest);
  }

  /** Once the three numbers are read, the digest length decides. */
  lemma AfterThePrefix(c: Cid, tail: seq<byte>)
    requires IsCid(c)
    ensures var n := |EncodeAll(Prefix(c))|;
            && SkipVarints(EncodeAll(Prefix(c)) + tail, 0, 3) == Some(n)
            && (EncodeAll(Prefix(c)) + tail)[n..] == tail
            && n <= 30
  {
    var data := EncodeAll(Prefix(c)) + tail;
    assert data[0..] == data;
    SkipsEncoded(data, 0, Prefix(c), tail);
  }

  lemma DigestCutShort(c: Cid, tail: seq<byte>)
    requires IsCid(c)
    requires |tail| < |Encode(|c.digest|) + c.digest| && tail == (Encode(|c.digest|) + c.digest)[..|tail|]
    ensures var size := |Encode(|c.digest|)|;
            || Uvarint(tail).1 <= 0
            || (Uvarint(tail) == (|c.digest|, size) && size <= 10 && |tail| < size + |c.digest|)
  {
    var size := Encode(|c.digest|);
    if |tail| < |size| {
      assert tail == size[..|tail|];
      TruncatedAfter(|c.digest|, |tail|, 0);
    } else {
      assert tail == size + tail[|size|..];
      RoundTrip(|c.digest|, tail[|size|..]);
    }
  }

  lemma CutInTheDigest(c: Cid, tail: seq<byte>)
    requires IsCid(c)
    requires |tail| < |Encode(|c.digest|) + c.digest| && tail == (Encode(|c.digest|) + c.digest)[..|tail|]
    ensures CidLen(EncodeAll(Prefix(c)) + tail).Invalid?
  {
    AfterThePrefix(c, tail);
    DigestCutShort(c, tail);
  }

  /** A CID cut short is rejected. */
  lemma CidTruncation(c: Cid, k: nat)
    requires IsCid(c) && k < |EncodeCid(c)|
    ensures CidLen(EncodeCid(c)[..k]).Invalid?
  {
    var head, tail := EncodeAll(Prefix(c)), Encode(|c.digest|) + c.digest;
    assert EncodeCid(c) == head + tail;
    if k < |head| {
      var data := head[..k];
      assert EncodeCid(c)[..k] == data && data[0..] == data;
      SkippingCutShort(data, 0, Prefix(c), k);
    } else {
      var cut := tail[..k - |head|];
      assert EncodeCid(c)[..k] == head + cut;
      CutInTheDigest(c, cut);
    }
  }

  /** Encoded CIDs form a prefix code: a stream starts with at most one of them. */
  lemma CidUnique(c: Cid, rest: seq<byte>, d: Cid, other: seq<byte>)
    requires IsCid(c) && IsCid(d)
    requires EncodeCid(c) + rest == EncodeCid(d) + other
    ensures c == d && rest == other
  {
    var tail, tail' := Encode(|c.digest|) + (c.digest + rest), Encode(|d.digest|) + (d.digest + other);
    assert EncodeCid(c) + rest == EncodeAll(Prefix(c)) + tail;
    assert EncodeCid(d) + other == EncodeAll(Prefix(d)) + tail';
    EncodeAllUnique(Prefix(c), tail, Prefix(d), tail');
    assert Prefix(c)[0] == Prefix(d)[0] && Prefix(c)[1] == Prefix(d)[1] && Prefix(c)[2] == Prefix(d)[2];
    VarintUnique(|c.digest|, c.digest + rest, |d.digest|, d.digest + other);
    assert c.digest == (c.digest + rest)[..|c.digest|] == d.digest;
    assert rest == (c.digest + rest)[|c.digest|..] == other;
  }

  lemma {:induction false} EncodeAllUnique(vs: seq<nat>, rest: seq<byte>, ws: seq<nat>, other: seq<byte>)
    requires Fit(vs) && Fit(ws) && |vs| == |ws|
    requires EncodeAll(vs) + rest == EncodeAll(ws) + other
    ensures vs == ws && rest == other
  {
    if vs == [] {
      assert [] + rest == rest && [] + other == other;
    } else {
      var tail, tail' := EncodeAll(vs[1..]) + rest, EncodeAll(ws[1..]) + other;
      assert EncodeAll(vs) + rest == Encode(vs[0]) + tail;
      assert EncodeAll(ws) + other == Encode(ws[0]) + tail';
      VarintUnique(vs[0], tail, ws[0], tail');
      EncodeAllUnique(vs[1..], rest, ws[1..], other);
      assert vs == [vs[0]] + vs[1..] && ws == [ws[0]] + ws[1..];
    }
  }

  lemma VarintUnique(v: nat, rest: seq<byte>, w: nat, other: seq<byte>)
    requires v < TWO_64 && w < TWO_64 && Encode(v) + rest == Encode(w) + other
    ensures v == w && rest == other
  {
    RoundTrip(v, rest);
    RoundTrip(w, other);
    assert rest == (Encode(v) + rest)[|Encode(v)|..];
    assert other == (Encode(w) + other)[|Encode(w)|..];
  }

  // ------------------------------------------------------------------ tag 42

  datatype TagError = TooShort | NotTag42 | UnsupportedHeader | BytesTruncated | MissingIdentityPrefix
  datatype TaggedCid = Bytes(cid: seq<byte>) | NotACid(error: TagError)

  function ExtractCidFromTag42(raw: seq<byte>): TaggedCid {
    if |raw| < 4 then NotACid(TooShort)
    else if raw[0] != 0xd8 || raw[1] != 0x2a then NotACid(NotTag42)
    else if 0x40 <= raw[2] <= 0x57 then ContentAt(raw, 3, raw[2] % 0x20)
    else if raw[2] == 0x58 then ContentAt(raw, 4, raw[3])
    else NotACid(UnsupportedHeader)
  }

  function ContentAt(raw: seq<byte>, start: nat, size: nat): TaggedCid {
    if |raw| < start + size then NotACid(BytesTruncated)
    else
      var content := raw[start..start + size];
      if |content| == 0 || content[0] != 0 then NotACid(MissingIdentityPrefix) else Bytes(content[1..])
  }

  /** RFC 8949 section 3.1: a byte string of at most 23 bytes carries its length in the initial byte. */
  function ShortForm(cid: seq<byte>): seq<byte>
    requires |cid| <= 22
  {
    [0xd8, 0x2a, 0x40 + 1 + |cid|, 0] + cid
  }

  /** RFC 8949 section 3.1: additional information 24 puts the length in the next byte. */
  function LongForm(cid: seq<byte>): seq<byte>
    requires |cid| <= 254
  {
    [0xd8, 0x2a, 0x58, 1 + |cid|, 0] + cid
  }

  /** RFC 8949 section 3.4, with the shortest byte-string head, as DAG-CBOR demands. */
  function EncodeTag42(cid: seq<byte>): seq<byte>
    requires |cid| <= 254
  {
    if |cid| <= 22 then ShortForm(cid) else LongForm(cid)
  }

  lemma ContentExact(raw: seq<byte>, start: nat, size: nat, cid: seq<byte>)
    requires start <= |raw|
    ensures ContentAt(raw, start, size) == Bytes(cid) <==> size == 1 + |cid| && [0] + cid <= raw[start..]
  {
    if start + size <= |raw| {
      assert raw[start..start + size] == raw[start..][..size];
      if [0] + cid <= raw[start..] && size == 1 + |cid| {
        assert raw[start..][..size] == [0] + cid;
      }
    }
  }

  lemma HeadThenContent(raw: seq<byte>, head: seq<byte>, cid: seq<byte>)
    ensures head + ([0] + cid) <= raw <==> head <= raw && [0] + cid <= raw[|head|..]
  {
    if head <= raw {
      assert raw == head + raw[|head|..];
    }
  }

  /** The extractor accepts exactly the two tag-42 forms, ignoring whatever follows the byte string. */
  lemma Tag42Exact(raw: seq<byte>, cid: seq<byte>)
    ensures ExtractCidFromTag42(raw) == Bytes(cid) <==>
            (|cid| <= 22 && ShortForm(cid) <= raw) || (|cid| <= 254 && LongForm(cid) <= raw)
  {
    if |cid| <= 22 {
      var head := [0xd8, 0x2a, 0x40 + 1 + |cid|];
      assert ShortForm(cid) == head + ([0] + cid);
      HeadThenContent(raw, head, cid);
      assert head <= raw <==> |raw| >= 3 && raw[0] == 0xd8 && raw[1] == 0x2a && raw[2] == 0x40 + 1 + |cid|;
    }
    if |cid| <= 254 {
      var head := [0xd8, 0x2a, 0x58, 1 + |cid|];
      assert LongForm(cid) == head + ([0] + cid);
      HeadThenContent(raw, head, cid);
      assert head <= raw <==> |raw| >= 4 && raw[0] == 0xd8 && raw[1] == 0x2a && raw[2] == 0x58 && raw[3] == 1 + |cid|;
    }
    if |raw| >= 4 {
      ContentExact(raw, 3, raw[2] % 0x20, cid);
      ContentExact(raw, 4, raw[3], cid);
    }
    hide ContentAt;
  }

  lemma Tag42RoundTrip(cid: seq<byte>)
    requires |cid| <= 254
    ensures ExtractCidFromTag42(EncodeTag42(cid)) == Bytes(cid)
  {
    Tag42Exact(EncodeTag42(cid), cid);
  }

  // ---------------------------------------------------------------- sections

  type BlockMap = map<seq<byte>, seq<byte>>

  /** A slice bound outside the input is a run-time panic in the code, kept apart from a reported error. */
  datatype CarResult = Blocks(blocks: BlockMap) | Malformed | Panic

  datatype BlockResult = Block(cid: seq<byte>, record: seq<byte>) | BadBlock | PanicBlock

  /** A section splits into its CID and a record that must not be empty. */
  function BlockOf(section: seq<byte>): BlockResult {
    match CidLen(section)
    case Invalid(_) => BadBlock
    case Length(n) =>
      if n >= |section| then BadBlock
      else if n < 0 then PanicBlock
      else Block(section[..n], section[n..])
  }

  datatype Next = Next(size: nat, cid: seq<byte>, record: seq<byte>) | Bad | PanicNext

  /** The section that `rest`, the input from offset n on, starts with: how long it is, its CID, its record. */
  function NextSection(rest: seq<byte>, n: nat): (r: Next)
    ensures r.Next? ==> 0 < r.size <= |rest|
  {
    var (blockLen, size) := Uvarint(rest);
    if size <= 0 then Bad
    else
      var end := ToInt(n + size + blockLen) - n;
      if end > |rest| then Bad
      else if end < size then PanicNext
      else
        match BlockOf(rest[size..end])
        case Block(cid, record) => Next(end, cid, record)
        case BadBlock => Bad
        case PanicBlock => PanicNext
  }

  /** The section loop from offset n on, with the blocks found so far. */
  function ReadSections(rest: seq<byte>, n: nat, found: BlockMap): CarResult
    decreases |rest|
  {
    if rest == [] then Blocks(found)
    else
      match NextSection(rest, n)
      case Next(size, cid, record) => ReadSections(rest[size..], n + size, found[cid := record])
      case Bad => Malformed
      case PanicNext => Panic
  }

  /** The whole block stream: the header is skipped unread, then come the sections. */
  function ReadCar(data: seq<byte>): CarResult {
    var (headerLen, size) := Uvarint(data);
    if size <= 0 then Malformed
    else
      var n := ToInt(size + headerLen);
      if n > |data| then Malformed
      else if n < 0 then Panic
      else ReadSections(data[n..], n, map[])
  }

  datatype Section = Section(cid: Cid, record: seq<byte>)

  predicate IsSection(s: Section) {
    IsCid(s.cid) && s.record != [] && |EncodeCid(s.cid)| + |s.record| < TWO_63
  }

  ghost predicate AreSections(sections: seq<Section>) {
    forall k :: 0 <= k < |sections| ==> IsSection(sections[k])
  }

  function EncodeSection(s: Section): seq<byte> {
    Encode(|EncodeCid(s.cid)| + |s.record|) + (EncodeCid(s.cid) + s.record)
  }

  function EncodeSections(sections: seq<Section>): seq<byte> {
    if sections == [] then [] else EncodeSection(sections[0]) + EncodeSections(sections[1..])
  }

  function EncodeCar(header: seq<byte>, sections: seq<Section>): seq<byte> {
    Encode(|header|) + (header + EncodeSections(sections))
  }

  /** The CID-to-record map of a list of sections: a later section replaces an earlier one. */
  function MapOf(sections: seq<Section>, found: BlockMap): BlockMap {
    if sections == [] then found
    else MapOf(sections[1..], found[EncodeCid(sections[0].cid) := sections[0].record])
  }

  lemma BlockRoundTrip(s: Section)
    requires IsSection(s)
    ensures BlockOf(EncodeCid(s.cid) + s.record) == Block(EncodeCid(s.cid), s.record)
  {
    CidRoundTrip(s.cid, s.record);
  }

  lemma ReadsOneSection(s: Section, rest: seq<byte>, n: nat)
    requires IsSection(s) && n + |EncodeSection(s)| + |rest| < TWO_63
    ensures NextSection(EncodeSection(s) + rest, n) == Next(|EncodeSection(s)|, EncodeCid(s.cid), s.record)
  {
    var body := EncodeCid(s.cid) + s.record;
    var head := Encode(|body|);
    assert EncodeSection(s) + rest == head + (body + rest);
    RoundTrip(|body|, body + rest);
    BlockRoundTrip(s);
    assert (head + (body + rest))[|head|..|head| + |body|] == body;
  }

  lemma {:induction false} ReadsAllSections(sections: seq<Section>, n: nat, found: BlockMap)
    requires AreSections(sections) && n + |EncodeSections(sections)| < TWO_63
    ensures ReadSections(EncodeSections(sections), n, found) == Blocks(MapOf(sections, found))
  {
    hide NextSection;
    if sections != [] {
      var first, tail := sections[0], EncodeSections(sections[1..]);
      ReadsOneSection(first, tail, n);
      assert (EncodeSection(first) + tail)[|EncodeSection(first)|..] == tail;
      ReadsAllSections(sections[1..], n + |EncodeSection(first)|, found[EncodeCid(first.cid) := first.record]);
    }
  }

  lemma ReadsHeader(header: seq<byte>, rest: seq<byte>)
    requires |Encode(|header|)| + |header| + |rest| < TWO_63
    ensures ReadCar(Encode(|header|) + (header + rest)) == ReadSections(rest, |Encode(|header|)| + |header|, map[])
  {
    hide Encode, UvarintAfter, ReadSections;
    var size := Encode(|header|);
    RoundTrip(|header|, header + rest);
    assert (size + (header + rest))[|size| + |header|..] == rest;
  }

  /** Reading a serialised CAR consumes it exactly and yields its CID-to-record map. */
  lemma CarRoundTrip(header: seq<byte>, sections: seq<Section>)
    requires AreSections(sections) && |EncodeCar(header, sections)| < TWO_63
    ensures ReadCar(EncodeCar(header, sections)) == Blocks(MapOf(sections, map[]))
  {
    hide ReadCar, ReadSections, NextSection;
    ReadsHeader(header, EncodeSections(sections));
    ReadsAllSections(sections, |Encode(|header|)| + |header|, map[]);
  }

  /** k bytes of serialised sections end exactly between two sections. */
  ghost predicate IsBoundary(sections: seq<Section>, k: nat) {
    exists j :: 0 <= j <= |sections| && k == |EncodeSections(sections[..j])|
  }

  lemma BoundaryAfterFirst(sections: seq<Section>, k: nat)
    requires sections != [] && IsBoundary(sections[1..], k)
    ensures IsBoundary(sections, |EncodeSection(sections[0])| + k)
  {
    var j :| 0 <= j <= |sections| - 1 && k == |EncodeSections(sections[1..][..j])|;
    assert sections[..j + 1][1..] == sections[1..][..j];
    assert |EncodeSection(sections[0])| + k == |EncodeSections(sections[..j + 1])|;
  }

  lemma TakeConcat(a: seq<byte>, b: seq<byte>, k: nat)
    requires k <= |a| + |b|
    ensures (a + b)[..k] == if k < |a| then a[..k] else a + b[..k - |a|]
  {
  }

  lemma NextCutShort(rest: seq<byte>, n: nat)
    requires var (blockLen, size) := Uvarint(rest);
             size <= 0 || (|rest| < size + blockLen && n + size + blockLen < TWO_63)
    ensures NextSection(rest, n) == Bad
  {
    hide BlockOf, UvarintAfter;
  }

  /** A section cut short is an error, not a shorter block. */
  lemma CutSection(s: Section, k: nat, n: nat)
    requires IsSection(s) && n + |EncodeSection(s)| < TWO_63 && k < |EncodeSection(s)|
    ensures NextSection(EncodeSection(s)[..k], n) == Bad
  {
    hide NextSection;
    var body := EncodeCid(s.cid) + s.record;
    var head := Encode(|body|);
    assert EncodeSection(s) == head + body;
    TakeConcat(head, body, k);
    if k < |head| {
      TruncatedAfter(|body|, k, 0);
    } else {
      RoundTrip(|body|, body[..k - |head|]);
    }
    NextCutShort(EncodeSection(s)[..k], n);
  }

  lemma {:induction false} CutSections(sections: seq<Section>, k: nat, n: nat, found: BlockMap)
    requires AreSections(sections) && n + |EncodeSections(sections)| < TWO_63
    requires k <= |EncodeSections(sections)| && !IsBoundary(sections, k)
    ensures ReadSections(EncodeSections(sections)[..k], n, found) == Malformed
  {
    hide NextSection;
    assert sections[..0] == [] && EncodeSections(sections[..0]) == [];
    assert k != 0 && sections != [];
    var first, tail := sections[0], EncodeSections(sections[1..]);
    var size := |EncodeSection(first)|;
    TakeConcat(EncodeSection(first), tail, k);
    if k < size {
      CutSection(first, k, n);
    } else {
      var cut := tail[..k - size];
      ReadsOneSection(first, cut, n);
      assert (EncodeSection(first) + cut)[size..] == cut;
      if IsBoundary(sections[1..], k - size) {
        BoundaryAfterFirst(sections, k - size);
      }
      CutSections(sections[1..], k - size, n + size, found[EncodeCid(first.cid) := first.record]);
    }
  }

  /**
   Nothing is lost silently: a CAR cut anywhere but between two sections is
   rejected, and one cut between two sections yields the map of the sections
   before the cut.
   */
  lemma CarTruncation(header: seq<byte>, sections: seq<Section>, k: nat)
    requires AreSections(sections) && |EncodeCar(header, sections)| < TWO_63 && k <= |EncodeCar(header, sections)|
    ensures forall j :: 0 <= j <= |sections| && k == |EncodeCar(header, sections[..j])| ==>
              ReadCar(EncodeCar(header, sections)[..k]) == Blocks(MapOf(sections[..j], map[]))
    ensures (forall j :: 0 <= j <= |sections| ==> k != |EncodeCar(header, sections[..j])|) ==>
              ReadCar(EncodeCar(header, sections)[..k]) == Malformed
  {
    var data := EncodeCar(header, sections);
    forall j | 0 <= j <= |sections| && k == |EncodeCar(header, sections[..j])|
      ensures ReadCar(data[..k]) == Blocks(MapOf(sections[..j], map[]))
    {
      EncodeSectionsPrefix(sections, j);
      assert data[..k] == EncodeCar(header, sections[..j]);
      CarRoundTrip(header, sections[..j]);
    }
    if forall j :: 0 <= j <= |sections| ==> k != |EncodeCar(header, sections[..j])| {
      var n := |Encode(|header|)| + |header|;
      forall j | 0 <= j <= |sections| ensures k - n != |EncodeSections(sections[..j])| {
        assert k != |EncodeCar(header, sections[..j])|;
      }
      CutCar(header, sections, k);
    }
  }

  lemma CutCar(header: seq<byte>, sections: seq<Section>, k: nat)
    requires AreSections(sections) && |EncodeCar(header, sections)| < TWO_63 && k <= |EncodeCar(header, sections)|
    requires var n := |Encode(|header|)| + |header|; k >= n ==> !IsBoundary(sections, k - n)
    ensures ReadCar(EncodeCar(header, sections)[..k]) == Malformed
  {
    hide ReadCar, ReadSections, NextSection, Encode, EncodeSections;
    var n, body := |Encode(|header|)| + |header|, EncodeSections(sections);
    if k < n {
      CutHeader(header, body, k);
    } else {
      var cut := body[..k - n];
      assert EncodeCar(header, sections)[..k] == Encode(|header|) + (header + cut) by {
        TakeConcat(Encode(|header|), header + body, k);
        TakeConcat(header, body, k - |Encode(|header|)|);
      }
      ReadsHeader(header, cut);
      CutSections(sections, k - n, n, map[]);
    }
  }

  lemma CutHeader(header: seq<byte>, rest: seq<byte>, k: nat)
    requires |Encode(|header|)| + |header| < TWO_63 && k < |Encode(|header|)| + |header|
    ensures ReadCar((Encode(|header|) + (header + rest))[..k]) == Malformed
  {
    var size := Encode(|header|);
    var data := (size + (header + rest))[..k];
    if k < |size| {
      assert data == size[..k];
      TruncatedAfter(|header|, k, 0);
    } else {
      assert data == size + header[..k - |size|];
      RoundTrip(|header|, header[..k - |size|]);
    }
  }

  lemma {:induction false} EncodeSectionsPrefix(sections: seq<Section>, j: nat)
    requires j <= |sections|
    ensures EncodeSections(sections[..j]) <= EncodeSections(sections)
  {
    if j > 0 {
      EncodeSectionsPrefix(sections[1..], j - 1);
      assert sections[..j][1..] == sections[1..][..j - 1];
    }
  }

  // --------------------------------------------------------------- post text

  /** One repository operation; deletes carry no CID. */
  datatype Op = Op(path: string, cid: seq<byte>)

  datatype Post = Post(kind: string, text: string)

  /** The CBOR library's decoding of a record; None on a decode error. */
  type RecordDecoder = seq<byte> -> Option<Post>

  const FEED_POST := "app.bsky.feed.post"

  /** The text an operation contributes, if any. */
  function TextOf(op: Op, blocks: BlockMap, decode: RecordDecoder): Option<string> {
    if |op.cid| == 0 then None
    else
      match ExtractCidFromTag42(op.cid)
      case NotACid(_) => None
      case Bytes(cid) =>
        if cid !in blocks then None
        else
          match decode(blocks[cid])
          case None => None
          case Some(post) => if post.kind != FEED_POST then None else Some(post.text)
  }

  /** The text of the last operation on `path` that contributes one. */
  ghost function LastText(ops: seq<Op>, blocks: BlockMap, decode: RecordDecoder, path: string): Option<string> {
    if ops == [] then None
    else
      var last := ops[|ops| - 1];
      if last.path == path && TextOf(last, blocks, decode).Some? then TextOf(last, blocks, decode)
      else LastText(ops[..|ops| - 1], blocks, decode, path)
  }

  datatype TextResult = NoText | Texts(byPath: map<string, string>) | TextPanic

  lemma SliceFromSuffix(data: seq<byte>, from: nat, lo: nat, hi: nat)
    requires from <= lo <= hi <= |data|
    ensures data[from..][lo - from..hi - from] == data[lo..hi]
  {
  }

  /** The block loop of carExtractPostText, cursor and all. */
  method CollectBlocks(blocks: seq<byte>) returns (r: CarResult)
    ensures r == ReadCar(blocks)
  {
    hide UvarintAfter, CidLen, ToInt;
    var (headerLen, hSize) := Uvarint(blocks);
    if hSize <= 0 {
      return Malformed;
    }
    var n := ToInt(hSize + ToInt(headerLen));
    ToIntOfSum(hSize, headerLen);
    if n > |blocks| {
      return Malformed;
    }
    if n < 0 {
      return Panic;
    }
    var blocksByCid: BlockMap := map[];
    while n < |blocks|
      invariant 0 <= n <= |blocks|
      invariant ReadCar(blocks) == ReadSections(blocks[n..], n, blocksByCid)
      decreases |blocks| - n
    {
      ghost var rest, n0 := blocks[n..], n;
      var (blockLen, bSize) := Uvarint(blocks[n..]);
      if bSize <= 0 {
        return Malformed;
      }
      n := n + bSize;
      var end := ToInt(n + ToInt(blockLen));
      ToIntOfSum(n, blockLen);
      if end > |blocks| {
        return Malformed;
      }
      if end < n {
        return Panic;
      }
      var blockData := blocks[n..end];
      SliceFromSuffix(blocks, n0, n, end);
      n := end;
      var cidLen := ParseCidLen(blockData);
      if cidLen.Invalid? || cidLen.n >= |blockData| {
        return Malformed;
      }
      if cidLen.n < 0 {
        return Panic;
      }
      assert NextSection(rest, n0) == Next(end - n0, blockData[..cidLen.n], blockData[cidLen.n..]);
      assert rest[end - n0..] == blocks[n..];
      blocksByCid := blocksByCid[blockData[..cidLen.n] := blockData[cidLen.n..]];
    }
    return Blocks(blocksByCid);
  }

  method CarExtractPostText(blocks: seq<byte>, ops: seq<Op>, decode: RecordDecoder) returns (r: TextResult)
    ensures r.NoText? <==> blocks == [] || ReadCar(blocks).Malformed?
    ensures r.TextPanic? <==> ReadCar(blocks).Panic?
    ensures ReadCar(blocks).Blocks? ==> r.Texts? && forall path ::
              if path in r.byPath then LastText(ops, ReadCar(blocks).blocks, decode, path) == Some(r.byPath[path])
              else LastText(ops, ReadCar(blocks).blocks, decode, path) == None
  {
    hide ReadCar;
    if |blocks| == 0 {
      EmptyIsMalformed();
      return NoText;
    }
    var car := CollectBlocks(blocks);
    match car
    case Malformed => return NoText;
    case Panic => return TextPanic;
    case Blocks(byCid) =>
      var result: map<string, string> := map[];
      for i := 0 to |ops|
        invariant forall path ::
          LastText(ops[..i], byCid, decode, path) == if path in result then Some(result[path]) else None
      {
        assert ops[..i + 1][..i] == ops[..i];
        var text := TextOf(ops[i], byCid, decode);
        if text.Some? {
          result := result[ops[i].path := text.value];
        }
      }
      assert ops[..|ops|] == ops;
      return Texts(result);
  }

  lemma EmptyIsMalformed()
    ensures ReadCar([]) == Malformed
  {
  }

  // -------------------------------------------------------------- end to end

  /** What a repository commit says: a record created or updated under a path, or a path deleted. */
  datatype Write = Put(path: string, cid: Cid) | Delete(path: string)

  ghost predicate IsWrite(w: Write) {
    w.Put? ==> IsCid(w.cid) && |EncodeCid(w.cid)| <= 254
  }

  function OpOf(w: Write): Op
    requires IsWrite(w)
  {
    match w
    case Put(path, cid) => Op(path, EncodeTag42(EncodeCid(cid)))
    case Delete(path) => Op(path, [])
  }

  ghost function OpsOf(writes: seq<Write>): seq<Op>
    requires forall k :: 0 <= k < |writes| ==> IsWrite(writes[k])
  {
    seq(|writes|, k requires 0 <= k < |writes| => OpOf(writes[k]))
  }

  /** The record stored last under a CID. */
  function RecordOf(sections: seq<Section>, cid: Cid): Option<seq<byte>> {
    if sections == [] then None
    else if RecordOf(sections[1..], cid).Some? then RecordOf(sections[1..], cid)
    else if sections[0].cid == cid then Some(sections[0].record)
    else None
  }

  function WrittenText(w: Write, sections: seq<Section>, decode: RecordDecoder): Option<string> {
    if w.Delete? || RecordOf(sections, w.cid).None? then None
    else
      match decode(RecordOf(sections, w.cid).value)
      case Some(post) => if post.kind == FEED_POST then Some(post.text) else None
      case None => None
  }

  ghost function LastWrittenText(writes: seq<Write>, sections: seq<Section>, decode: RecordDecoder,
      path: string): Option<string> {
    if writes == [] then None
    else
      var last := writes[|writes| - 1];
      if last.path == path && WrittenText(last, sections, decode).Some? then WrittenText(last, sections, decode)
      else LastWrittenText(writes[..|writes| - 1], sections, decode, path)
  }

  lemma DifferentCidsDifferentBytes(c: Cid, d: Cid)
    requires IsCid(c) && IsCid(d) && EncodeCid(c) == EncodeCid(d)
    ensures c == d
  {
    CidUnique(c, [], d, []);
  }

  lemma {:induction false} LookupFindsLastRecord(sections: seq<Section>, found: BlockMap, cid: Cid)
    requires AreSections(sections) && IsCid(cid)
    ensures var m, key := MapOf(sections, found), EncodeCid(cid);
            match RecordOf(sections, cid)
            case Some(record) => key in m && m[key] == record
            case None => (key in m <==> key in found) && (key in m ==> m[key] == found[key])
  {
    hide EncodeCid, IsCid;
    if sections != [] {
      var first := sections[0];
      assert IsSection(first);
      assert IsCid(first.cid);
      if EncodeCid(first.cid) == EncodeCid(cid) {
        DifferentCidsDifferentBytes(first.cid, cid);
      }
      LookupFindsLastRecord(sections[1..], found[EncodeCid(first.cid) := first.record], cid);
    }
  }

  lemma OpTextIsWrittenText(w: Write, sections: seq<Section>, decode: RecordDecoder)
    requires IsWrite(w) && AreSections(sections)
    ensures TextOf(OpOf(w), MapOf(sections, map[]), decode) == WrittenText(w, sections, decode)
  {
    hide EncodeCid, ExtractCidFromTag42, MapOf, RecordOf;
    if w.Put? {
      Tag42RoundTrip(EncodeCid(w.cid));
      LookupFindsLastRecord(sections, map[], w.cid);
    }
  }

  /**
   From a commit to its texts: for every serialised CAR and every list of
   writes, the extracted map gives each path the text of the last write on it
   whose CID names a feed-post record; deletes, unmatched CIDs and other
   records contribute nothing.
   */
  lemma {:induction false} CommitTexts(header: seq<byte>, sections: seq<Section>, writes: seq<Write>,
      decode: RecordDecoder, path: string)
    requires AreSections(sections) && |EncodeCar(header, sections)| < TWO_63
    requires forall k :: 0 <= k < |writes| ==> IsWrite(writes[k])
    ensures ReadCar(EncodeCar(header, sections)).Blocks?
    ensures LastText(OpsOf(writes), ReadCar(EncodeCar(header, sections)).blocks, decode, path) ==
            LastWrittenText(writes, sections, decode, path)
  {
    hide ReadCar, EncodeCar, MapOf, TextOf, WrittenText, OpOf;
    CarRoundTrip(header, sections);
    if writes != [] {
      var front := writes[..|writes| - 1];
      assert OpsOf(writes)[..|writes| - 1] == OpsOf(front);
      CommitTexts(header, sections, front, decode, path);
      OpTextIsWrittenText(writes[|writes| - 1], sections, decode);
      assert OpOf(writes[|writes| - 1]).path == writes[|writes| - 1].path by { SamePath(writes[|writes| - 1]); }
    }
  }

  lemma SamePath(w: Write)
    requires IsWrite(w)
    ensures OpOf(w).path == w.path
  {
  }
}
