/** What parsing can return, and exactly which payloads pass the byte-identity guard of `main`. */
module NewcGuard {
  import opened Bytes
  import opened Hex
  import opened Newc
  import opened NewcParse

  /** Eight-character fields that print back as they stand. */
  predicate CanonicalFields(s: seq<byte>, upper: bool)
    requires |s| % 8 == 0
  {
    s == [] || (CanonicalField(s[..8], upper) && CanonicalFields(s[8..], upper))
  }

  lemma {:induction false} FormatParseFields(s: seq<byte>, upper: bool)
    requires |s| % 8 == 0 && ParseFields(s).Some?
    ensures AllFit(ParseFields(s).value)
    ensures FormatFields(ParseFields(s).value, upper) == s <==> CanonicalFields(s, upper)
  {
    if s != [] {
      hide ParseField, FormatField, CanonicalField;
      var v, rest := ParseField(s[..8]).value, ParseFields(s[8..]).value;
      FormatParseField(s[..8], upper);
      FormatParseFields(s[8..], upper);
      ParseFormatField(v, upper);
      assert ParseFields(s).value[1..] == rest;
      assert s == s[..8] + s[8..];
      SplitEqual(FormatField(v, upper), s[..8], FormatFields(rest, upper), s[8..]);
    }
  }

  lemma SplitEqual<T>(a: seq<T>, a': seq<T>, b: seq<T>, b': seq<T>)
    requires |a| == |a'|
    ensures a + b == a' + b' <==> a == a' && b == b'
  {
    if a + b == a' + b' {
      assert a == (a + b)[..|a|] && b == (a + b)[|a|..];
      assert a' == (a' + b')[..|a|] && b' == (a' + b')[|a|..];
    }
  }

  /** The size of a record whose name has `n` bytes and whose data has `d`. */
  function RecordSize(n: nat, d: nat): (size: nat)
    ensures size >= Align(111 + n, 4) + d
  {
    Align(Align(111 + n, 4) + d, 4)
  }

  /** `q` holds the magic, the numbers, the name and the data of `e`; check field and padding may be anything. */
  predicate Spells(q: seq<byte>, e: NewcEntry) {
    var n, h, d := |e.name|, Align(111 + |e.name|, 4), |e.data|;
    && |q| == RecordSize(n, d)
    && q[..6] == e.magic
    && ParseFields(q[6..110]).Some? && ParseFields(q[6..110]).value[..12] == HeaderFields(e)[..12]
    && q[110..110 + n] == e.name && q[110 + n] == 0 && q[h..h + d] == e.data
  }

  /** Every field prints back, the check field is the one printing computes, and the padding is zero. */
  predicate CleanBytes(q: seq<byte>, e: NewcEntry)
    requires Spells(q, e)
  {
    var n, h, d := |e.name|, Align(111 + |e.name|, 4), |e.data|;
    && CanonicalFields(q[6..110], e.hexUpper)
    && ParseFields(q[6..110]).value[12] == Checksum(e)
    && AllZero(q[111 + n..h]) && AllZero(q[h + d..])
  }

  lemma EntryOfFields(h: RecordHeader, e: NewcEntry)
    requires |h.fields| == 13 && e == EntryOf(h, e.name, e.data)
    requires h.fields[6] == |e.data| && h.fields[11] == |e.name| + 1
    ensures h.fields[..12] == HeaderFields(e)[..12]
    ensures AllFit(h.fields) ==> AllFit(HeaderFields(e))
  {
    var f, g := h.fields, HeaderFields(e);
    assert forall i :: 0 <= i < 12 ==> f[i] == g[i];
    assert FieldFits(g[12]);
  }

  /** Two byte strings of equal length are equal exactly when they agree on both sides of a cut. */
  lemma EqualAtCut(a: seq<byte>, b: seq<byte>, k: nat)
    requires |a| == |b| && k <= |a|
    ensures a == b <==> a[..k] == b[..k] && a[k..] == b[k..]
  {
    assert a == a[..k] + a[k..] && b == b[..k] + b[k..];
  }

  /** The same for the slice between two cuts. */
  lemma EqualBetween(a: seq<byte>, b: seq<byte>, lo: nat, mid: nat)
    requires |a| == |b| && lo <= mid <= |a|
    ensures a[lo..] == b[lo..] <==> a[lo..mid] == b[lo..mid] && a[mid..] == b[mid..]
  {
    EqualAtCut(a[lo..], b[lo..], mid - lo);
    assert a[lo..][..mid - lo] == a[lo..mid] && b[lo..][..mid - lo] == b[lo..mid];
    assert a[lo..][mid - lo..] == a[mid..] && b[lo..][mid - lo..] == b[mid..];
  }

  /** Equality of two records with a name of `n` bytes, a head of `h` and data of `d`, part by part. */
  lemma EqualByParts(a: seq<byte>, b: seq<byte>, n: nat, h: nat, d: nat)
    requires |a| == |b| && 111 + n <= h && h + d <= |a|
    ensures a == b <==>
      && a[..6] == b[..6] && a[6..110] == b[6..110] && a[110..110 + n] == b[110..110 + n]
      && a[110 + n] == b[110 + n] && a[111 + n..h] == b[111 + n..h]
      && a[h..h + d] == b[h..h + d] && a[h + d..] == b[h + d..]
  {
    EqualAtCut(a, b, 6);
    EqualBetween(a, b, 6, 110);
    EqualBetween(a, b, 110, 110 + n);
    EqualBetween(a, b, 110 + n, 111 + n);
    EqualBetween(a, b, 111 + n, h);
    EqualBetween(a, b, h, h + d);
    assert a[110 + n..111 + n] == [a[110 + n]] && b[110 + n..111 + n] == [b[110 + n]];
  }

  lemma RecordPadding(e: NewcEntry)
    requires EntryFits(e)
    ensures |Head(e)| >= 111 + |e.name| && |Record(e)| >= |Head(e)| + |e.data|
    ensures AllZero(Record(e)[111 + |e.name|..|Head(e)|])
    ensures AllZero(Record(e)[|Head(e)| + |e.data|..])
  {
    hide FormatFields, HeaderFields, ValidUtf8;
    RecordLayout(e);
  }

  /** The header bytes are those printing gives exactly when they are canonical and the check field is right. */
  lemma HeaderMatches(s: seq<byte>, e: NewcEntry)
    requires |s| == 104 && EntryFits(e)
    requires ParseFields(s).Some? && ParseFields(s).value[..12] == HeaderFields(e)[..12]
    ensures FormatFields(HeaderFields(e), e.hexUpper) == s
       <==> CanonicalFields(s, e.hexUpper) && ParseFields(s).value[12] == Checksum(e)
  {
    hide FormatFields, ParseFields, CanonicalFields, ValidUtf8;
    var f, g := ParseFields(s).value, HeaderFields(e);
    FormatParseFields(s, e.hexUpper);
    ParseFormatFields(g, e.hexUpper);
    assert f == f[..12] + [f[12]] && g == g[..12] + [g[12]];
    assert f == g <==> f[12] == Checksum(e);
  }

  lemma CleanBytesIff(q: seq<byte>, e: NewcEntry)
    requires EntryFits(e) && Spells(q, e)
    ensures |Record(e)| == |q|
    ensures q == Record(e) <==> CleanBytes(q, e)
  {
    hide Record, Head, Header, EntryFits, ParseFields, CanonicalFields, FormatFields, HeaderFields, Checksum, Align;
    RecordLayout(e);
    RecordPadding(e);
    var r, n, h, d := Record(e), |e.name|, |Head(e)|, |e.data|;
    HeaderMatches(q[6..110], e);
    EqualByParts(q, r, n, h, d);
    EqualToZeros(q[111 + n..h], r[111 + n..h]);
    EqualToZeros(q[h + d..], r[h + d..]);
  }

  lemma RecordLength(e: NewcEntry)
    requires EntryFits(e)
    ensures |Record(e)| == RecordSize(|e.name|, |e.data|)
  {
    hide Record, Head, Header, EntryFits, Align;
    RecordLayout(e);
  }

  /** The numbers that a parsed record's header spells. */
  lemma ParsedHeader(p: seq<byte>, offset: nat)
    requires ParseRecord(p, offset).Ok?
    ensures var e := ParseRecord(p, offset).value.entry;
      && p[offset..offset + 6] == e.magic
      && ParseFields(p[offset + 6..offset + 110]).Some?
      && ParseFields(p[offset + 6..offset + 110]).value[..12] == HeaderFields(e)[..12]
      && EntryFits(e)
  {
    hide ParseFields, ValidUtf8, HasUpper, Align;
    var header := p[offset..offset + 110];
    assert header[6..] == p[offset + 6..offset + 110] && header[..6] == p[offset..offset + 6];
    FormatParseFields(header[6..], false);
    EntryOfFields(ParseHeader(p, offset).value, ParseRecord(p, offset).value.entry);
  }

  /** Where name and data of a parsed record lie. */
  lemma ParsedBody(p: seq<byte>, offset: nat)
    requires offset % 4 == 0 && ParseRecord(p, offset).Ok?
    ensures var ParsedRecord(e, next) := ParseRecord(p, offset).value;
      var n, h, d := |e.name|, Align(111 + |e.name|, 4), |e.data|;
      && next == offset + RecordSize(n, d)
      && offset + 111 + n <= |p| && offset + h + d <= |p|
      && p[offset + 110..offset + 110 + n] == e.name && p[offset + 110 + n] == 0
      && p[offset + h..offset + h + d] == e.data
  {
    hide ParseHeader, ValidUtf8, Align;
    var e := ParseRecord(p, offset).value.entry;
    AlignShift(111 + |e.name|, offset, 4);
    AlignShift(Align(111 + |e.name|, 4) + |e.data|, offset, 4);
  }

  lemma ParsedSpells(p: seq<byte>, offset: nat)
    requires offset % 4 == 0 && ParseRecord(p, offset).Ok? && ParseRecord(p, offset).value.next <= |p|
    ensures Spells(p[offset..ParseRecord(p, offset).value.next], ParseRecord(p, offset).value.entry)
  {
    hide ParseRecord, EntryFits, ParseFields, HeaderFields, Align;
    ParsedHeader(p, offset);
    ParsedBody(p, offset);
    var ParsedRecord(e, next) := ParseRecord(p, offset).value;
    var n, h, d := |e.name|, Align(111 + |e.name|, 4), |e.data|;
    SliceOfSlice(p, offset, next, 0, 6);
    SliceOfSlice(p, offset, next, 6, 110);
    SliceOfSlice(p, offset, next, 110, 110 + n);
    SliceOfSlice(p, offset, next, h, h + d);
  }

  /** The whole record is there and its bytes are clean. */
  predicate CleanRecord(p: seq<byte>, offset: nat)
    requires offset % 4 == 0 && ParseRecord(p, offset).Ok?
  {
    var ParsedRecord(e, next) := ParseRecord(p, offset).value;
    next <= |p| && (ParsedSpells(p, offset); CleanBytes(p[offset..next], e))
  }

  /** A parsed record is the print of its entry exactly when it is clean. */
  lemma CleanRecordIff(p: seq<byte>, offset: nat)
    requires offset % 4 == 0 && ParseRecord(p, offset).Ok?
    ensures var ParsedRecord(e, next) := ParseRecord(p, offset).value;
      && next == offset + |Record(e)|
      && (CleanRecord(p, offset) <==> next <= |p| && p[offset..next] == Record(e))
  {
    hide ParseRecord, Record, HeaderFields, ParseFields, EntryFits, CleanBytes, Spells, Align, RecordSize;
    ParsedHeader(p, offset);
    ParsedBody(p, offset);
    var ParsedRecord(e, next) := ParseRecord(p, offset).value;
    RecordLength(e);
    if next <= |p| {
      ParsedSpells(p, offset);
      CleanBytesIff(p[offset..next], e);
    }
  }

  /** Every record of the chain starting at `offset` is clean. */
  predicate CleanFrom(p: seq<byte>, offset: nat)
    requires offset % 4 == 0
    decreases |p| - offset
  {
    var r := ParseRecord(p, offset);
    r.Ok? && CleanRecord(p, offset) && (r.value.entry.name == TRAILER || CleanFrom(p, r.value.next))
  }

  lemma {:induction false} GuardFrom(p: seq<byte>, offset: nat, paths: set<Path>)
    requires offset % 4 == 0 && offset <= |p| && ParseFrom(p, offset, paths).Ok?
    ensures p[offset..] == Serialized(ParseFrom(p, offset, paths).value) <==> CleanFrom(p, offset)
    decreases |p| - offset
  {
    hide ParseRecord, CleanRecord, Record;
    CleanRecordIff(p, offset);
    var ParsedRecord(e, next) := ParseRecord(p, offset).value;
    var a := ParseFrom(p, offset, paths).value;
    if e.name == TRAILER {
      JoinOne(Record, e);
      if next <= |p| {
        SplitEqual(p[offset..next], Record(e), p[next..], a.tail);
        assert p[offset..] == p[offset..next] + p[next..];
      }
    } else {
      var rest := ParseFrom(p, next, paths + {e.name}).value;
      assert next <= |p|;
      GuardFrom(p, next, paths + {e.name});
      assert a.entries[1..] == rest.entries;
      assert Serialized(a) == Record(e) + Serialized(rest);
      SplitEqual(p[offset..next], Record(e), p[next..], Serialized(rest));
      assert p[offset..] == p[offset..next] + p[next..];
    }
  }

  /** The guard `serialize() != payload` lets through exactly the payloads whose records are all clean. */
  lemma GuardIff(p: seq<byte>)
    requires Parsed(p).Ok?
    ensures Serialized(Parsed(p).value) == p <==> CleanFrom(p, 0)
  {
    hide ParseFrom, CleanFrom, Serialized;
    GuardFrom(p, 0, {});
    assert p[0..] == p;
  }

  lemma {:induction false} ParseFromIsWellFormed(p: seq<byte>, offset: nat, paths: set<Path>)
    requires TRAILER !in paths && ParseFrom(p, offset, paths).Ok?
    ensures WellFormed(ParseFrom(p, offset, paths).value)
    ensures Unseen(ParseFrom(p, offset, paths).value.entries, paths)
    decreases |p| - offset
  {
    hide ParseRecord, EntryFits;
    ParsedHeader(p, offset);
    var ParsedRecord(e, next) := ParseRecord(p, offset).value;
    if e.name != TRAILER {
      ParseFromIsWellFormed(p, next, paths + {e.name});
    }
  }

  /** Whatever parses is well-formed: distinct names, the trailer last, numbers that print in eight characters. */
  lemma ParsedIsWellFormed(p: seq<byte>)
    requires Parsed(p).Ok?
    ensures WellFormed(Parsed(p).value)
  {
    ParseFromIsWellFormed(p, 0, {});
  }

  /** Parsing and printing are inverse between guarded payloads and well-formed archives with visible case. */
  lemma GuardedInverse(p: seq<byte>, a: NewcArchive)
    ensures Parsed(p) == Ok(a) && Serialized(a) == p
       <==> WellFormed(a) && (forall i :: 0 <= i < |a.entries| ==> CaseShows(a.entries[i])) && Serialized(a) == p
  {
    hide Parsed, WellFormed, Serialized, CaseShows;
    if Parsed(p) == Ok(a) {
      ParsedIsWellFormed(p);
    }
    if WellFormed(a) {
      ParseSerializedIsIdentity(a);
    }
  }

  lemma CanonicalFits(e: NewcEntry)
    ensures EntryFits(Canonical(e)) <==> EntryFits(e)
    ensures Canonical(e).name == e.name
  {
    assert HeaderFields(Canonical(e)) == HeaderFields(e);
  }

  /** A printed archive is read back exactly when it is well-formed: every other archive is misread or refused. */
  lemma ParseSerializedIff(a: NewcArchive)
    ensures Parsed(Serialized(a)) == Ok(CanonicalArchive(a)) <==> WellFormed(a)
  {
    hide Parsed, Serialized, Canonical, EntryFits;
    if WellFormed(a) {
      ParseSerialized(a);
    }
    if Parsed(Serialized(a)) == Ok(CanonicalArchive(a)) {
      ParsedIsWellFormed(Serialized(a));
      forall i | 0 <= i < |a.entries|
        ensures EntryFits(a.entries[i]) && CanonicalEntries(a.entries)[i].name == a.entries[i].name
      {
        CanonicalFits(a.entries[i]);
        assert EntryFits(CanonicalEntries(a.entries)[i]);
      }
    }
  }
}
