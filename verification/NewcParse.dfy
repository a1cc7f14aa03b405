/** `NewcArchive.parse`, its inverse laws with the printer, and the byte-identity guard of `main`. */
module NewcParse {
  import opened Bytes
  import opened Hex
  import opened Newc

  datatype ParseError =
    | TruncatedHeader | BadMagic | BadHeader | BadNameSize | BadName | NotUtf8 | TruncatedData | DuplicatePath

  datatype ParsedRecord = ParsedRecord(entry: NewcEntry, next: nat)

  /** The numbers of consecutive eight-character fields. */
  function ParseFields(s: seq<byte>): (r: Option<seq<int>>)
    requires |s| % 8 == 0
    ensures r.Some? ==> |r.value| == |s| / 8
  {
    if s == [] then Some([])
    else
      var v := ParseField(s[..8]);
      var rest := ParseFields(s[8..]);
      if v.None? || rest.None? then None else Some([v.value] + rest.value)
  }

  datatype RecordHeader = RecordHeader(magic: seq<byte>, hexUpper: bool, fields: seq<int>)

  /** The 110 bytes at `offset`: magic, letter case and thirteen numbers. */
  function ParseHeader(p: seq<byte>, offset: nat): (r: Result<RecordHeader, ParseError>)
    ensures r.Ok? ==> offset + NEWC_HEADER_SIZE <= |p| && |r.value.fields| == 13
  {
    var headerEnd := offset + NEWC_HEADER_SIZE;
    if headerEnd > |p| then Err(TruncatedHeader) else
    var header := p[offset..headerEnd];
    if !ValidMagic(header[..6]) then Err(BadMagic) else
    var fields := ParseFields(header[6..]);
    if fields.None? then Err(BadHeader) else
    Ok(RecordHeader(header[..6], HasUpper(header[6..]), fields.value))
  }

  function EntryOf(h: RecordHeader, name: Path, data: seq<byte>): NewcEntry
    requires |h.fields| == 13
  {
    var f := h.fields;
    NewcEntry(h.magic, h.hexUpper, f[0], f[1], f[2], f[3], f[4], f[5], f[7], f[8], f[9], f[10], name, data)
  }

  /** Name and data, which start at `headerEnd`. */
  function ParseBody(p: seq<byte>, headerEnd: nat, h: RecordHeader): (r: Result<ParsedRecord, ParseError>)
    requires |h.fields| == 13
    ensures r.Ok? ==> headerEnd < |p| && headerEnd < r.value.next && r.value.next % 4 == 0
  {
    var fileSize, nameSize := h.fields[6], h.fields[11];
    if nameSize < 1 then Err(BadNameSize) else
    var nameEnd := headerEnd + nameSize;
    if nameEnd > |p| || p[nameEnd - 1] != 0 then Err(BadName) else
    var name := p[headerEnd..nameEnd - 1];
    if !ValidUtf8(name) then Err(NotUtf8) else
    var dataStart := Align(nameEnd, 4);
    var dataEnd := dataStart + fileSize;
    if fileSize < 0 || dataEnd > |p| then Err(TruncatedData) else
    Ok(ParsedRecord(EntryOf(h, name, p[dataStart..dataEnd]), Align(dataEnd, 4)))
  }

  /** One turn of the parsing loop: the entry at `offset` and the offset of the next one. */
  function ParseRecord(p: seq<byte>, offset: nat): (r: Result<ParsedRecord, ParseError>)
    ensures r.Ok? ==> offset + NEWC_HEADER_SIZE < |p| && offset + NEWC_HEADER_SIZE < r.value.next
    ensures r.Ok? ==> r.value.next % 4 == 0
  {
    var h := ParseHeader(p, offset);
    if h.Err? then Err(h.error) else ParseBody(p, offset + NEWC_HEADER_SIZE, h.value)
  }

  /** `payload[offset:]`, which is empty past the end. */
  function From(p: seq<byte>, offset: nat): seq<byte> {
    if offset <= |p| then p[offset..] else []
  }

  /** The rest of an archive from `offset` on, when `paths` have been seen before. */
  function ParseFrom(p: seq<byte>, offset: nat, paths: set<Path>): Result<NewcArchive, ParseError>
    decreases |p| - offset
  {
    var r := ParseRecord(p, offset);
    if r.Err? then Err(r.error) else
    var ParsedRecord(entry, next) := r.value;
    if entry.name == TRAILER then Ok(NewcArchive([entry], From(p, next)))
    else if entry.name in paths then Err(DuplicatePath)
    else Prepend([entry], ParseFrom(p, next, paths + {entry.name}))
  }

  function Prepend(entries: seq<NewcEntry>, r: Result<NewcArchive, ParseError>): Result<NewcArchive, ParseError> {
    if r.Err? then r else Ok(NewcArchive(entries + r.value.entries, r.value.tail))
  }

  function Parsed(p: seq<byte>): Result<NewcArchive, ParseError> {
    ParseFrom(p, 0, {})
  }

  /** `NewcArchive.parse`. */
  method Parse(payload: seq<byte>) returns (r: Result<NewcArchive, ParseError>)
    ensures r == Parsed(payload)
  {
    hide ParseRecord;
    var entries: seq<NewcEntry>, paths: set<Path>, offset: nat := [], {}, 0;
    PrependNothing(Parsed(payload));
    while true
      invariant Parsed(payload) == Prepend(entries, ParseFrom(payload, offset, paths))
      decreases |payload| - offset
    {
      var record := ParseRecord(payload, offset);
      if record.Err? {
        return Err(record.error);
      }
      var entry := record.value.entry;
      ghost var before := entries;
      entries := entries + [entry];
      if entry.name == TRAILER {
        return Ok(NewcArchive(entries, From(payload, record.value.next)));
      }
      if entry.name in paths {
        return Err(DuplicatePath);
      }
      PrependTwice(before, [entry], ParseFrom(payload, record.value.next, paths + {entry.name}));
      paths := paths + {entry.name};
      offset := record.value.next;
    }
  }

  lemma PrependNothing(r: Result<NewcArchive, ParseError>)
    ensures Prepend([], r) == r
  {
    if r.Ok? {
      assert [] + r.value.entries == r.value.entries;
    }
  }

  lemma PrependTwice(a: seq<NewcEntry>, b: seq<NewcEntry>, r: Result<NewcArchive, ParseError>)
    ensures Prepend(a, Prepend(b, r)) == Prepend(a + b, r)
  {
    if r.Ok? {
      assert a + (b + r.value.entries) == (a + b) + r.value.entries;
    }
  }

  // ---- Parsing what was printed

  lemma SlicesOfConcat(a: seq<byte>, b: seq<byte>)
    ensures (a + b)[..|a|] == a && (a + b)[|a|..] == b
  {
  }

  lemma {:induction false} ParseFormatFields(fields: seq<int>, upper: bool)
    requires AllFit(fields)
    ensures var s := FormatFields(fields, upper);
      |s| == 8 * |fields| && ParseFields(s) == Some(fields)
  {
    if fields != [] {
      hide ParseField, FormatField;
      var v, rest := fields[0], fields[1..];
      ParseFormatField(v, upper);
      ParseFormatFields(rest, upper);
      SlicesOfConcat(FormatField(v, upper), FormatFields(rest, upper));
      assert fields == [v] + rest;
    }
  }

  lemma HeadLayout(e: NewcEntry)
    requires EntryFits(e)
    ensures var s, n := Head(e), |e.name|;
      && |Header(e)| == NEWC_HEADER_SIZE
      && |s| == Align(111 + n, 4)
      && s[..6] == e.magic && s[6..110] == FormatFields(HeaderFields(e), e.hexUpper)
      && s[110..110 + n] == e.name && s[110 + n] == 0
  {
    hide FormatFields, HeaderFields, ValidUtf8;
    ParseFormatFields(HeaderFields(e), e.hexUpper);
    var header := Header(e);
    assert header[..6] == e.magic && header[6..] == FormatFields(HeaderFields(e), e.hexUpper);
    assert Head(e)[..110] == header;
    assert Head(e)[..110][..6] == Head(e)[..6] && Head(e)[..110][6..] == Head(e)[6..110];
  }

  /** Where the parts of a printed record lie. */
  lemma RecordLayout(e: NewcEntry)
    requires EntryFits(e)
    ensures var r, n, h := Record(e), |e.name|, |Head(e)|;
      && h == Align(111 + n, 4)
      && |r| == Align(h + |e.data|, 4)
      && r[..6] == e.magic && r[6..110] == FormatFields(HeaderFields(e), e.hexUpper)
      && r[110..110 + n] == e.name && r[110 + n] == 0
      && r[h..h + |e.data|] == e.data
  {
    hide Head, FormatFields, HeaderFields, ValidUtf8;
    HeadLayout(e);
    PaddingShift(|Head(e)|, |e.data|);
    var r, n, s := Record(e), |e.name|, Head(e);
    assert r[..|s|] == s;
    assert s[..6] == r[..6] && s[6..110] == r[6..110] && s[110..110 + n] == r[110..110 + n];
  }

  /** The header of a printed entry, as read. */
  function HeaderOf(e: NewcEntry): RecordHeader {
    RecordHeader(e.magic, HasUpper(FormatFields(HeaderFields(e), e.hexUpper)), HeaderFields(e))
  }

  lemma EntryOfHeaderOf(e: NewcEntry)
    requires EntryFits(e)
    ensures |HeaderOf(e).fields| == 13
    ensures HeaderOf(e).fields[6] == |e.data| && HeaderOf(e).fields[11] == |e.name| + 1
    ensures EntryOf(HeaderOf(e), e.name, e.data) == Canonical(e)
    ensures ValidUtf8(e.name)
  {
  }

  /** The bytes of `e` stand in `p` at `offset`. */
  predicate RecordAt(p: seq<byte>, offset: nat, e: NewcEntry) {
    offset + |Record(e)| <= |p| && p[offset..offset + |Record(e)|] == Record(e)
  }

  lemma ParseHeaderOfRecord(p: seq<byte>, o: nat, e: NewcEntry)
    requires EntryFits(e) && RecordAt(p, o, e)
    ensures ParseHeader(p, o) == Ok(HeaderOf(e))
  {
    hide Record, Head, Header, FormatFields, ParseFields, ValidUtf8, HasUpper, Align;
    RecordLayout(e);
    ParseFormatFields(HeaderFields(e), e.hexUpper);
    var next := o + |Record(e)|;
    SliceOfSlice(p, o, next, 0, 6);
    SliceOfSlice(p, o, next, 6, 110);
    SliceOfSlice(p, o, o + 110, 0, 6);
    SliceOfSlice(p, o, o + 110, 6, 110);
  }

  lemma ParseBodyReads(p: seq<byte>, start: nat, h: RecordHeader, name: Path, dataStart: nat, data: seq<byte>, next: nat)
    requires |h.fields| == 13 && h.fields[6] == |data| && h.fields[11] == |name| + 1 && ValidUtf8(name)
    requires start + |name| < |p| && p[start..start + |name|] == name && p[start + |name|] == 0
    requires dataStart == Align(start + |name| + 1, 4) && next == Align(dataStart + |data|, 4)
    requires dataStart + |data| <= |p| && p[dataStart..dataStart + |data|] == data
    ensures ParseBody(p, start, h) == Ok(ParsedRecord(EntryOf(h, name, data), next))
  {
    hide ValidUtf8, EntryOf, Align;
  }

  /** The name and the data of a record that stands at `o`. */
  lemma NameInRecord(p: seq<byte>, o: nat, e: NewcEntry)
    requires EntryFits(e) && RecordAt(p, o, e)
    ensures var n := |e.name|;
      o + 110 + n < |p| && p[o + 110..o + 110 + n] == e.name && p[o + 110 + n] == 0
  {
    hide Record, Head, Header, EntryFits, FormatFields, HeaderFields, Align;
    RecordLayout(e);
    SliceOfSlice(p, o, o + |Record(e)|, 110, 110 + |e.name|);
  }

  lemma DataInRecord(p: seq<byte>, o: nat, e: NewcEntry)
    requires EntryFits(e) && RecordAt(p, o, e)
    ensures var h, d := |Head(e)|, |e.data|;
      o + h + d <= |p| && p[o + h..o + h + d] == e.data
  {
    hide Record, Head, Header, EntryFits, FormatFields, HeaderFields, Align;
    RecordLayout(e);
    SliceOfSlice(p, o, o + |Record(e)|, |Head(e)|, |Head(e)| + |e.data|);
  }

  lemma RecordOffsets(o: nat, e: NewcEntry)
    requires o % 4 == 0 && EntryFits(e)
    ensures Align(o + 111 + |e.name|, 4) == o + |Head(e)|
    ensures Align(o + |Head(e)| + |e.data|, 4) == o + |Record(e)|
  {
    hide Record, Head, Header, EntryFits, FormatFields, HeaderFields, Align;
    RecordLayout(e);
    AlignShift(111 + |e.name|, o, 4);
    AlignShift(|Head(e)| + |e.data|, o, 4);
  }

  lemma ParseBodyOfRecord(p: seq<byte>, o: nat, e: NewcEntry)
    requires o % 4 == 0 && EntryFits(e) && RecordAt(p, o, e)
    ensures ParseBody(p, o + 110, HeaderOf(e)) == Ok(ParsedRecord(Canonical(e), o + |Record(e)|))
  {
    hide *;
    EntryOfHeaderOf(e);
    NameInRecord(p, o, e);
    DataInRecord(p, o, e);
    RecordOffsets(o, e);
    ParseBodyReads(p, o + 110, HeaderOf(e), e.name, o + |Head(e)|, e.data, o + |Record(e)|);
  }

  /** A printed record is read back wherever it is aligned, whatever surrounds it. */
  lemma ParseRecordOfRecord(p: seq<byte>, o: nat, e: NewcEntry)
    requires o % 4 == 0 && EntryFits(e) && RecordAt(p, o, e)
    ensures ParseRecord(p, o) == Ok(ParsedRecord(Canonical(e), o + |Record(e)|))
  {
    hide ParseHeader, ParseBody, Record, EntryFits, Canonical;
    ParseHeaderOfRecord(p, o, e);
    ParseBodyOfRecord(p, o, e);
  }

  /** Names of a suffix of an archive, none of which were seen before. */
  ghost predicate Unseen(entries: seq<NewcEntry>, paths: set<Path>) {
    forall i :: 0 <= i < |entries| ==> entries[i].name !in paths
  }

  /** The first record of a printed archive is read, whatever precedes it. */
  lemma ParseFirstRecord(pre: seq<byte>, e: NewcEntry, post: seq<byte>)
    requires |pre| % 4 == 0 && EntryFits(e)
    ensures ParseRecord(pre + Record(e) + post, |pre|) == Ok(ParsedRecord(Canonical(e), |pre| + |Record(e)|))
    ensures Canonical(e).name == e.name
  {
    hide Record, ParseRecord, EntryFits;
    var p := pre + Record(e) + post;
    assert p[|pre|..|pre| + |Record(e)|] == Record(e);
    ParseRecordOfRecord(p, |pre|, e);
  }

  lemma {:induction false} ParseFromRecords(pre: seq<byte>, entries: seq<NewcEntry>, tail: seq<byte>, paths: set<Path>)
    requires |pre| % 4 == 0
    requires WellFormed(NewcArchive(entries, tail)) && Unseen(entries, paths)
    ensures ParseFrom(pre + (Records(entries) + tail), |pre|, paths)
         == Ok(CanonicalArchive(NewcArchive(entries, tail)))
    decreases |entries|
  {
    hide Record, ParseRecord, EntryFits, Canonical;
    var e, rest := entries[0], entries[1..];
    var post := Records(rest) + tail;
    var p, before := pre + (Records(entries) + tail), pre + Record(e);
    assert p == before + post;
    ParseFirstRecord(pre, e, post);
    assert entries == [e] + rest;
    CanonicalCons(e, rest);
    if rest == [] {
      assert From(p, |before|) == tail;
      assert CanonicalEntries(entries) == [Canonical(e)];
    } else {
      assert e.name != entries[|entries| - 1].name;
      assert WellFormed(NewcArchive(rest, tail)) && Unseen(rest, paths + {e.name});
      ParseFromRecords(before, rest, tail, paths + {e.name});
    }
  }

  lemma CanonicalCons(e: NewcEntry, rest: seq<NewcEntry>)
    ensures CanonicalEntries([e] + rest) == [Canonical(e)] + CanonicalEntries(rest)
  {
    hide Canonical;
  }

  /** Parsing a printed archive gives the archive back, up to the letter case no digit shows. */
  lemma ParseSerialized(a: NewcArchive)
    requires WellFormed(a)
    ensures Parsed(Serialized(a)) == Ok(CanonicalArchive(a))
  {
    hide ParseFrom, WellFormed, Records;
    ParseFromRecords([], a.entries, a.tail, {});
    assert [] + (Records(a.entries) + a.tail) == Serialized(a);
  }

  /** An upper-case flag that some digit of the header shows. */
  predicate CaseShows(e: NewcEntry) {
    e.hexUpper ==> HasUpper(FormatFields(HeaderFields(e), true))
  }

  /** The round trip is the identity exactly when every upper-case flag shows in some header letter. */
  lemma ParseSerializedIsIdentity(a: NewcArchive)
    requires WellFormed(a)
    ensures Parsed(Serialized(a)) == Ok(a) <==> forall i :: 0 <= i < |a.entries| ==> CaseShows(a.entries[i])
  {
    hide Parsed, Serialized, EntryFits, FormatFields, HasUpper;
    ParseSerialized(a);
    forall i | 0 <= i < |a.entries|
      ensures CanonicalEntries(a.entries)[i] == a.entries[i] <==> CaseShows(a.entries[i])
    {
      FieldsCase(HeaderFields(a.entries[i]));
    }
    assert CanonicalEntries(a.entries) == a.entries <==>
      forall i :: 0 <= i < |a.entries| ==> CanonicalEntries(a.entries)[i] == a.entries[i];
  }

  /** Printing, parsing and printing again gives the first print. */
  lemma SerializeParseSerialize(a: NewcArchive)
    requires WellFormed(a)
    ensures Parsed(Serialized(a)).Ok?
    ensures Serialized(Parsed(Serialized(a)).value) == Serialized(a)
  {
    hide Parsed, Records, WellFormed;
    ParseSerialized(a);
    CanonicalRecords(a.entries);
  }
}
