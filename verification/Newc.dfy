/** cpio "newc" archives: entries, their record bytes, and the printer of `tools/rewrite-newc-ramdisk.py`. */
module Newc {
  import opened Bytes
  import opened Hex

  const NEWC_HEADER_SIZE := 110
  const NEWC_MAGIC: seq<byte> := [0x30, 0x37, 0x30, 0x37, 0x30, 0x31]
  const CRC_MAGIC: seq<byte> := [0x30, 0x37, 0x30, 0x37, 0x30, 0x32]
  /** The name "TRAILER!!!" that ends an archive. */
  const TRAILER: seq<byte> := [0x54, 0x52, 0x41, 0x49, 0x4C, 0x45, 0x52, 0x21, 0x21, 0x21]

  type Path = seq<byte>

  datatype NewcEntry = NewcEntry(
    magic: seq<byte>, hexUpper: bool, inode: int, mode: int, uid: int, gid: int, links: int, mtime: int,
    devMajor: int, devMinor: int, rdevMajor: int, rdevMinor: int, name: Path, data: seq<byte>)

  datatype NewcArchive = NewcArchive(entries: seq<NewcEntry>, tail: seq<byte>)

  function Sum(data: seq<byte>): nat {
    if data == [] then 0 else Sum(data[..|data| - 1]) + data[|data| - 1] as nat
  }

  function Checksum(e: NewcEntry): (c: nat)
    ensures c < WORD_LIMIT
  {
    if e.magic == CRC_MAGIC then Sum(e.data) % WORD_LIMIT else 0
  }

  /** The thirteen numbers of a header, in file order. */
  function HeaderFields(e: NewcEntry): (f: seq<int>)
    ensures |f| == 13
  {
    [e.inode, e.mode, e.uid, e.gid, e.links, e.mtime, |e.data|,
     e.devMajor, e.devMinor, e.rdevMajor, e.rdevMinor, |e.name| + 1, Checksum(e)]
  }

  function FormatFields(fields: seq<int>, upper: bool): seq<byte> {
    if fields == [] then [] else FormatField(fields[0], upper) + FormatFields(fields[1..], upper)
  }

  function Header(e: NewcEntry): seq<byte> {
    e.magic + FormatFields(HeaderFields(e), e.hexUpper)
  }

  /** The zero bytes that bring a string of this length to a multiple of four. */
  function Padding(length: nat): (z: seq<byte>)
    ensures length + |z| == Align(length, 4)
    ensures AllZero(z)
  {
    Zeros(Align(length, 4) - length)
  }

  /** Header, name and terminating zero, padded. */
  function Head(e: NewcEntry): (s: seq<byte>)
    ensures |s| % 4 == 0
  {
    var s := Header(e) + e.name + [0];
    s + Padding(|s|)
  }

  /** The bytes of one entry, a whole number of words, so that it is aligned the same wherever it starts. */
  function Record(e: NewcEntry): (s: seq<byte>)
    ensures |s| % 4 == 0
  {
    Head(e) + e.data + Padding(|e.data|)
  }

  function Records(entries: seq<NewcEntry>): seq<byte> {
    Join(Record, entries)
  }

  function Serialized(a: NewcArchive): seq<byte> {
    Records(a.entries) + a.tail
  }

  lemma {:induction false} RecordsAligned(entries: seq<NewcEntry>)
    ensures |Records(entries)| % 4 == 0
  {
    if entries != [] {
      RecordsAligned(entries[1..]);
    }
  }

  lemma PaddingShift(start: nat, length: nat)
    requires start % 4 == 0
    ensures Padding(start + length) == Padding(length)
  {
    AlignShift(length, start, 4);
  }

  /** One turn of the printing loop, with the padding computed from the offset in the whole output. */
  method AppendRecord(before: seq<byte>, e: NewcEntry) returns (output: seq<byte>)
    requires |before| % 4 == 0
    ensures output == before + Record(e)
  {
    hide Header;
    var head := Header(e) + e.name + [0];
    output := before + head;
    output := output + Zeros(Align(|output|, 4) - |output|);
    PaddingShift(|before|, |head|);
    assert output == before + Head(e);
    output := output + e.data;
    output := output + Zeros(Align(|output|, 4) - |output|);
    PaddingShift(|before + Head(e)|, |e.data|);
  }

  /** `NewcArchive.serialize`. */
  method Serialize(a: NewcArchive) returns (output: seq<byte>)
    ensures output == Serialized(a)
  {
    hide Record;
    output := [];
    for i := 0 to |a.entries|
      invariant output == Records(a.entries[..i])
    {
      RecordsAligned(a.entries[..i]);
      JoinSnoc(Record, a.entries[..i], a.entries[i]);
      assert a.entries[..i + 1] == a.entries[..i] + [a.entries[i]];
      output := AppendRecord(output, a.entries[i]);
    }
    assert a.entries[..|a.entries|] == a.entries;
    output := output + a.tail;
  }

  /** Replacing one entry leaves the bytes of every other record as they were, moved by whole words. */
  lemma SerializedReplaceOne(a: NewcArchive, i: nat, e: NewcEntry)
    requires i < |a.entries|
    ensures var before, after := Records(a.entries[..i]), Records(a.entries[i + 1..]) + a.tail;
      && Serialized(a) == before + Record(a.entries[i]) + after
      && Serialized(a.(entries := a.entries[i := e])) == before + Record(e) + after
      && (|Record(e)| - |Record(a.entries[i])|) % 4 == 0
  {
    hide Record;
    JoinSplit(Record, a.entries, i);
    JoinSplit(Record, a.entries[i := e], i);
    assert a.entries[i := e][i + 1..] == a.entries[i + 1..];
  }

  predicate ValidMagic(magic: seq<byte>) { magic == NEWC_MAGIC || magic == CRC_MAGIC }

  predicate Continuation(b: byte) { 0x80 <= b <= 0xBF }

  /** Strict UTF-8 (Unicode Standard, table 3-7), as `bytes.decode("utf-8")` accepts it. */
  predicate ValidUtf8(s: seq<byte>) {
    if s == [] then true
    else if s[0] < 0x80 then ValidUtf8(s[1..])
    else if 0xC2 <= s[0] <= 0xDF then |s| >= 2 && Continuation(s[1]) && ValidUtf8(s[2..])
    else if 0xE0 <= s[0] <= 0xEF then
      && |s| >= 3 && Continuation(s[1]) && Continuation(s[2])
      && (s[0] == 0xE0 ==> s[1] >= 0xA0) && (s[0] == 0xED ==> s[1] <= 0x9F) && ValidUtf8(s[3..])
    else if 0xF0 <= s[0] <= 0xF4 then
      && |s| >= 4 && Continuation(s[1]) && Continuation(s[2]) && Continuation(s[3])
      && (s[0] == 0xF0 ==> s[1] >= 0x90) && (s[0] == 0xF4 ==> s[1] <= 0x8F) && ValidUtf8(s[4..])
    else false
  }

  predicate AllFit(fields: seq<int>) { forall i :: 0 <= i < |fields| ==> FieldFits(fields[i]) }

  /** What a record can hold: a known magic, a decodable name and numbers of at most eight characters. */
  predicate EntryFits(e: NewcEntry) {
    ValidMagic(e.magic) && ValidUtf8(e.name) && AllFit(HeaderFields(e))
  }

  predicate DistinctNames(entries: seq<NewcEntry>) {
    forall i, j :: 0 <= i < j < |entries| ==> entries[i].name != entries[j].name
  }

  /** Names are distinct and the trailer is exactly the last of them. */
  predicate WellFormedEntries(entries: seq<NewcEntry>) {
    && DistinctNames(entries)
    && entries != [] && entries[|entries| - 1].name == TRAILER
  }

  predicate WellFormed(a: NewcArchive) {
    WellFormedEntries(a.entries) && forall i :: 0 <= i < |a.entries| ==> EntryFits(a.entries[i])
  }

  /** The entry a reader gets back: the letter case survives only where the header has a letter. */
  function Canonical(e: NewcEntry): NewcEntry {
    e.(hexUpper := HasUpper(FormatFields(HeaderFields(e), e.hexUpper)))
  }

  function CanonicalEntries(entries: seq<NewcEntry>): (c: seq<NewcEntry>)
    ensures |c| == |entries|
    ensures forall i :: 0 <= i < |c| ==> c[i] == Canonical(entries[i])
  {
    seq(|entries|, i requires 0 <= i < |entries| => Canonical(entries[i]))
  }

  function CanonicalArchive(a: NewcArchive): NewcArchive {
    a.(entries := CanonicalEntries(a.entries))
  }

  lemma {:induction false} CaseOnlyShowsInLetters(n: nat, width: nat)
    requires !HasUpper(FormatNat(n, width, true))
    ensures FormatNat(n, width, true) == FormatNat(n, width, false)
    decreases n, width
  {
    var s := FormatNat(n, width, true);
    assert !IsUpperLetter(s[|s| - 1]);
    if n < 16 && width <= 1 {
    } else {
      var w := if width == 0 then 0 else width - 1;
      var init := FormatNat(n / 16, w, true);
      assert forall i :: 0 <= i < |init| ==> s[i] == init[i];
      CaseOnlyShowsInLetters(n / 16, w);
    }
  }

  lemma FieldCase(v: int)
    requires !HasUpper(FormatField(v, true))
    ensures FormatField(v, true) == FormatField(v, false)
  {
    var s := FormatField(v, true);
    if v < 0 {
      assert forall i :: 0 <= i < |s| - 1 ==> s[1..][i] == s[i + 1];
      CaseOnlyShowsInLetters(-v, 7);
    } else {
      CaseOnlyShowsInLetters(v, 8);
    }
  }

  lemma {:induction false} FieldsCase(fields: seq<int>)
    ensures !HasUpper(FormatFields(fields, false))
    ensures !HasUpper(FormatFields(fields, true)) ==> FormatFields(fields, true) == FormatFields(fields, false)
  {
    if fields != [] {
      FieldsCase(fields[1..]);
      var v, rest := fields[0], fields[1..];
      LowerHasNoUpper(v);
      var s, t := FormatField(v, true), FormatFields(rest, true);
      if !HasUpper(s + t) {
        assert forall i :: 0 <= i < |s| ==> (s + t)[i] == s[i];
        assert forall i :: 0 <= i < |t| ==> (s + t)[|s| + i] == t[i];
        FieldCase(v);
      }
    }
  }

  lemma LowerHasNoUpper(v: int)
    ensures !HasUpper(FormatField(v, false))
  {
    if v < 0 {
      FormatNatDigits(-v, 7, false);
    } else {
      FormatNatDigits(v, 8, false);
    }
  }

  /** Forgetting the case of a header without letters does not change its bytes. */
  lemma CanonicalHeader(e: NewcEntry)
    ensures Header(Canonical(e)) == Header(e)
    ensures Record(Canonical(e)) == Record(e)
    ensures Canonical(Canonical(e)) == Canonical(e)
  {
    assert HeaderFields(Canonical(e)) == HeaderFields(e);
    FieldsCase(HeaderFields(e));
  }

  lemma CanonicalRecords(entries: seq<NewcEntry>)
    ensures Records(CanonicalEntries(entries)) == Records(entries)
  {
    forall i | 0 <= i < |entries| ensures Record(CanonicalEntries(entries)[i]) == Record(entries[i]) {
      CanonicalHeader(entries[i]);
    }
    JoinSame(Record, CanonicalEntries(entries), entries);
  }
}
