/**
 Length claims in a block stream.  The decoder converts a declared length to a
 signed 64-bit int and adds it to an offset, and either may wrap around.  Here
 its reading is compared with that of a reader to which every length is the
 number it is.
 */
module CarLengths {
  import opened Car
  import opened Varint
  import opened Wrappers

  // -------------------------------------------------------- the exact reader

  /** Where the item at n ends that begins with its own length. */
  function EndOfItem(data: seq<byte>, n: nat): (end: Option<nat>)
    requires n <= |data|
    ensures end.Some? ==> end.value < |data| + TWO_64
  {
    var (length, size) := Uvarint(data[n..]);
    if size <= 0 then None
    else
      LocalAfter(data[n..], [], 0);
      Some(n + size + length)
  }

  /** Where the CID that data starts with ends. */
  function CidEnd(data: seq<byte>): (end: Option<nat>)
    ensures end.Some? ==> end.value < |data| + TWO_64
  {
    match SkipVarints(data, 0, 3)
    case None => None
    case Some(n) => EndOfItem(data, n)
  }

  function ExactBlock(section: seq<byte>): BlockResult {
    match CidEnd(section)
    case None => BadBlock
    case Some(end) => if end >= |section| then BadBlock else Block(section[..end], section[end..])
  }

  /** What the section that starts the input holds between its length and its end. */
  function SectionBody(rest: seq<byte>, end: nat): seq<byte>
    requires end <= |rest|
  {
    var size := Uvarint(rest).1;
    if 0 < size <= end then rest[size..end] else []
  }

  function ExactSections(rest: seq<byte>, found: BlockMap): (r: CarResult)
    ensures !r.Panic?
    decreases |rest|
  {
    if rest == [] then Blocks(found)
    else
      match EndOfItem(rest, 0)
      case None => Malformed
      case Some(end) =>
        if end > |rest| then Malformed
        else
          match ExactBlock(SectionBody(rest, end))
          case Block(cid, record) => ExactSections(rest[end..], found[cid := record])
          case _ => Malformed
  }

  /** The block stream as the CARv1 format defines it: its blocks, or an error. */
  function ExactCar(data: seq<byte>): (r: CarResult)
    ensures !r.Panic?
  {
    match EndOfItem(data, 0)
    case None => Malformed
    case Some(end) => if end > |data| then Malformed else ExactSections(data[end..], map[])
  }

  // ------------------------------------------------------- walks over lengths

  /** The end of an item that becomes a negative int. */
  predicate IsNegative(end: nat) {
    TWO_63 <= end < TWO_64
  }

  /** Walking from section to section, at offset n now, some end becomes a bad slice bound. */
  predicate SectionsPanic(rest: seq<byte>, n: nat)
    decreases |rest|
  {
    rest != [] &&
    match EndOfItem(rest, 0)
    case None => false
    case Some(end) =>
      || n + end >= TWO_63
      || (end <= |rest| &&
          match CidEnd(SectionBody(rest, end))
          case None => false
          case Some(cidEnd) =>
            || IsNegative(cidEnd)
            || ((cidEnd < |SectionBody(rest, end)| || cidEnd >= TWO_64) && SectionsPanic(rest[end..], n + end)))
  }

  predicate CarPanics(data: seq<byte>) {
    match EndOfItem(data, 0)
    case None => false
    case Some(end) =>
      if end < TWO_64 then IsNegative(end) || (end <= |data| && SectionsPanic(data[end..], end))
      else SectionsPanic(data[end - TWO_64..], end - TWO_64)
  }

  /** Can the lengths be walked to the end of the input, and does an end come round to a small number on the way? */
  datatype Framing = Broken | Sound | Wrapping

  function SectionsFraming(rest: seq<byte>): Framing
    decreases |rest|
  {
    if rest == [] then Sound
    else
      match EndOfItem(rest, 0)
      case None => Broken
      case Some(end) =>
        if end > |rest| then Broken
        else
          match CidEnd(SectionBody(rest, end))
          case None => Broken
          case Some(cidEnd) =>
            if |SectionBody(rest, end)| <= cidEnd < TWO_64 then Broken
            else
              var tail := SectionsFraming(rest[end..]);
              if cidEnd < TWO_64 || tail.Broken? then tail else Wrapping
  }

  function CarFraming(data: seq<byte>): Framing {
    match EndOfItem(data, 0)
    case None => Broken
    case Some(end) =>
      if end <= |data| then SectionsFraming(data[end..])
      else if end < TWO_64 || SectionsFraming(data[end - TWO_64..]).Broken? then Broken
      else Wrapping
  }

  // ------------------------------------------------- where the readers differ

  /** parseCIDLen finds the true end of a CID exactly when that end is an int. */
  lemma CidLenExactIff(data: seq<byte>)
    requires |data| < TWO_63 && CidEnd(data).Some?
    ensures CidLen(data) == (var end := CidEnd(data).value; if end > |data| then Invalid(CidTruncated) else Length(end))
            <==> CidEnd(data).value < TWO_63
  {
  }

  lemma BlockReadings(section: seq<byte>)
    requires |section| < TWO_63
    ensures match CidEnd(section)
            case None => BlockOf(section).BadBlock? && ExactBlock(section).BadBlock?
            case Some(end) =>
              && (ExactBlock(section) == if end < |section| then Block(section[..end], section[end..]) else BadBlock)
              && (BlockOf(section).PanicBlock? <==> IsNegative(end))
              && (BlockOf(section).Block? <==> end < |section| || end >= TWO_64)
              && (end < TWO_63 ==> BlockOf(section) == ExactBlock(section))
  {
    hide UvarintAfter;
  }

  lemma SectionReading(rest: seq<byte>, n: nat)
    requires rest != [] && n + |rest| < TWO_63
    ensures match EndOfItem(rest, 0)
            case None => NextSection(rest, n).Bad?
            case Some(end) =>
              if n + end >= TWO_63 then NextSection(rest, n).PanicNext?
              else if end > |rest| then NextSection(rest, n).Bad?
              else
                match BlockOf(SectionBody(rest, end))
                case Block(cid, record) => NextSection(rest, n) == Next(end, cid, record)
                case BadBlock => NextSection(rest, n).Bad?
                case PanicBlock => NextSection(rest, n).PanicNext?
  {
    hide BlockOf, UvarintAfter;
    assert rest[0..] == rest;
    if EndOfItem(rest, 0).Some? {
      LocalAfter(rest, [], 0);
    }
  }

  lemma {:induction false} SectionsReadings(rest: seq<byte>, n: nat, found: BlockMap, exactFound: BlockMap)
    requires n + |rest| < TWO_63
    ensures ReadSections(rest, n, found).Panic? <==> SectionsPanic(rest, n)
    ensures ReadSections(rest, n, found).Blocks? <==> !SectionsFraming(rest).Broken?
    ensures ExactSections(rest, exactFound).Blocks? <==> SectionsFraming(rest).Sound?
    ensures SectionsFraming(rest).Sound? ==> ExactSections(rest, found) == ReadSections(rest, n, found)
    decreases |rest|
  {
    hide BlockOf, ExactBlock, NextSection, UvarintAfter, CidEnd;
    if rest != [] {
      SectionReading(rest, n);
      match EndOfItem(rest, 0)
      case None =>
      case Some(end) =>
        if end <= |rest| {
          var section := SectionBody(rest, end);
          BlockReadings(section);
          match BlockOf(section)
          case Block(cid, record) =>
            SectionsReadings(rest[end..], n + end, found[cid := record], exactFound[cid := record]);
          case _ =>
        }
    }
  }

  lemma {:induction false} ReadingOf(data: seq<byte>)
    requires |data| < TWO_63
    ensures ReadCar(data).Panic? <==> CarPanics(data)
    ensures ReadCar(data).Blocks? <==> !CarFraming(data).Broken?
    ensures ExactCar(data).Blocks? <==> CarFraming(data).Sound?
    ensures CarFraming(data).Sound? ==> ExactCar(data) == ReadCar(data)
  {
    hide UvarintAfter, ReadSections, ExactSections, SectionsPanic, SectionsFraming;
    assert data[0..] == data;
    match EndOfItem(data, 0)
    case None =>
    case Some(end) =>
      LocalAfter(data, [], 0);
      var n := ToInt(end);
      if 0 <= n <= |data| {
        SectionsReadings(data[n..], n, map[], map[]);
      }
  }

  /** The decoder panics exactly when a length claim on its way becomes a bad slice bound. */
  lemma PanicsIff(data: seq<byte>)
    requires |data| < TWO_63
    ensures ReadCar(data).Panic? <==> CarPanics(data)
  {
    ReadingOf(data);
  }

  /**
   The decoder promises blocks or an error, as the format defines them.  It
   keeps the promise exactly on inputs where no length claim on its way becomes
   a bad slice bound, and where no wrapped-around end leads it to the end of
   the input all the same.
   */
  lemma ReadingIsExactIff(data: seq<byte>)
    requires |data| < TWO_63
    ensures ReadCar(data) == ExactCar(data) <==> !CarPanics(data) && !CarFraming(data).Wrapping?
    ensures CarFraming(data).Wrapping? ==> ReadCar(data).Blocks? && ExactCar(data).Malformed?
  {
    hide ReadCar, CarPanics, CarFraming;
    ReadingOf(data);
  }

  // ---------------------------------------------------------- concrete inputs

  /** A header that claims 2^63 bytes makes the decoder panic. */
  lemma HeaderPanics()
    ensures ReadCar(Encode(TWO_63)).Panic? && ExactCar(Encode(TWO_63)).Malformed?
  {
    hide Encode, UvarintAfter;
    RoundTrip(TWO_63, []);
    assert Encode(TWO_63) + [] == Encode(TWO_63) && Encode(TWO_63)[0..] == Encode(TWO_63);
  }

  lemma TopEncodings()
    ensures Encode(TWO_64 - 1) == [255, 255, 255, 255, 255, 255, 255, 255, 255, 1]
    ensures Encode(TWO_64 - 2)[8..] == Encode(255) && |Encode(TWO_64 - 2)| == 10
  {
    assert Encode(0xFF) == [255, 1];
    assert Encode(0x7FFF) == [255] + Encode(0xFF);
    assert Encode(0x3F_FFFF) == [255] + Encode(0x7FFF);
    assert Encode(0x1FFF_FFFF) == [255] + Encode(0x3F_FFFF);
    assert Encode(0xF_FFFF_FFFF) == [255] + Encode(0x1FFF_FFFF);
    assert Encode(0x7FF_FFFF_FFFF) == [255] + Encode(0xF_FFFF_FFFF);
    assert Encode(0x3_FFFF_FFFF_FFFF) == [255] + Encode(0x7FF_FFFF_FFFF);
    assert Encode(0x1FF_FFFF_FFFF_FFFF) == [255] + Encode(0x3_FFFF_FFFF_FFFF);
    assert Encode(TWO_64 - 1) == [255] + Encode(0x1FF_FFFF_FFFF_FFFF);
    assert Encode(TWO_64 - 2) == [254] + Encode(0x1FF_FFFF_FFFF_FFFF);
  }

  /**
   A header that claims 2^64 - 2 bytes: its end comes round to offset 8, within
   the claim itself, whose last two bytes then are the length of a section.
   */
  lemma HeaderWraps(s: Section)
    requires IsSection(s) && |EncodeCid(s.cid)| + |s.record| == 255
    ensures var data := Encode(TWO_64 - 2) + (EncodeCid(s.cid) + s.record);
            ReadCar(data) == Blocks(map[EncodeCid(s.cid) := s.record]) && ExactCar(data).Malformed?
  {
    hide Encode, EncodeCid, UvarintAfter, ReadSections;
    var body := EncodeCid(s.cid) + s.record;
    var data := Encode(TWO_64 - 2) + body;
    TopEncodings();
    RoundTrip(TWO_64 - 2, body);
    assert data[0..] == data && data[8..] == Encode(TWO_64 - 2)[8..] + body;
    assert EncodeSections([s]) == EncodeSection(s) + [] == data[8..];
    ReadsAllSections([s], 8, map[]);
  }

  /** A digest that claims 2^64 - 1 bytes: the CID found ends within its own digest length. */
  lemma DigestWraps(rest: seq<byte>)
    ensures var data := EncodeAll([1, 1, 1]) + (Encode(TWO_64 - 1) + rest);
            CidLen(data) == Length(12) && CidEnd(data) == Some(TWO_64 + 12) && |EncodeAll([1, 1, 1])| == 3
  {
    assert Encode(1) == [1] && EncodeAll([1, 1, 1]) == [1] + EncodeAll([1, 1]) &&
           EncodeAll([1, 1]) == [1] + EncodeAll([1]);
    hide Encode, UvarintAfter;
    var tail := Encode(TWO_64 - 1) + rest;
    var data := EncodeAll([1, 1, 1]) + tail;
    TopEncodings();
    RoundTrip(TWO_64 - 1, rest);
    assert data[0..] == data && data[3..] == tail;
    SkipsEncoded(data, 0, [1, 1, 1], tail);
  }
}
