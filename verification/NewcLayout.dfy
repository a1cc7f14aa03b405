/** Which number stands where in a record, field by field, for the printer and the parser. */
module NewcLayout {
  import opened Bytes
  import opened Hex
  import opened Newc
  import opened NewcParse
  import opened NewcGuard
  import opened NewcInspect
  import opened RamdiskEdit

  /** The bytes of a string of ASCII characters. */
  function Ascii(s: string): (b: seq<byte>)
    requires forall i :: 0 <= i < |s| ==> s[i] < 128 as char
  {
    seq(|s|, i requires 0 <= i < |s| => s[i] as int)
  }

  lemma MagicIs()
    ensures NEWC_MAGIC == Ascii("070701") && CRC_MAGIC == Ascii("070702") && TRAILER == Ascii("TRAILER!!!")
  {
  }

  /** The sum of bytes, by the laws that determine it. */
  lemma {:induction false} SumLaws(a: seq<byte>, b: seq<byte>, x: byte)
    ensures Sum([]) == 0 && Sum([x]) == x && Sum(a + b) == Sum(a) + Sum(b)
  {
    assert [x][..0] == [];
    if b == [] {
      assert a + b == a;
    } else {
      var i := |b| - 1;
      SumLaws(a, b[..i], x);
      assert (a + b)[..|a| + i] == a + b[..i];
    }
  }

  lemma {:induction false} FieldInFields(fields: seq<int>, upper: bool, k: nat)
    requires AllFit(fields) && k < |fields|
    ensures |FormatFields(fields, upper)| == 8 * |fields|
    ensures FormatFields(fields, upper)[8 * k..8 * k + 8] == FormatField(fields[k], upper)
  {
    hide FormatField;
    var first, rest := FormatField(fields[0], upper), fields[1..];
    ParseFormatField(fields[0], upper);
    ParseFormatFields(fields, upper);
    if k > 0 {
      FieldInFields(rest, upper, k - 1);
      var s, t := FormatFields(fields, upper), FormatFields(rest, upper);
      assert s == first + t && s[8..|s|] == t;
      SliceOfSlice(s, 8, |s|, 8 * (k - 1), 8 * (k - 1) + 8);
    }
  }

  /** The `k`-th of the thirteen numbers stands in the eight bytes from 6 + 8k. */
  lemma NumberInRecord(e: NewcEntry, k: nat)
    requires EntryFits(e) && k < 13
    ensures 6 + 8 * k + 8 <= |Record(e)|
    ensures Record(e)[6 + 8 * k..6 + 8 * k + 8] == FormatField(HeaderFields(e)[k], e.hexUpper)
  {
    hide Record, Head, Header, HeaderFields, FormatFields, FormatField, ValidUtf8, Align;
    RecordLayout(e);
    FieldInFields(HeaderFields(e), e.hexUpper, k);
    SliceOfSlice(Record(e), 6, 110, 8 * k, 8 * k + 8);
  }

  /** The bytes of a record begin with the magic and the thirteen numbers of `e`. */
  ghost predicate RecordHas(r: seq<byte>, e: NewcEntry) {
    && |r| >= 110 && r[..6] == e.magic
    && r[6..14] == FormatField(e.inode, e.hexUpper)
    && r[14..22] == FormatField(e.mode, e.hexUpper)
    && r[22..30] == FormatField(e.uid, e.hexUpper)
    && r[30..38] == FormatField(e.gid, e.hexUpper)
    && r[38..46] == FormatField(e.links, e.hexUpper)
    && r[46..54] == FormatField(e.mtime, e.hexUpper)
    && r[54..62] == FormatField(|e.data|, e.hexUpper)
    && r[62..70] == FormatField(e.devMajor, e.hexUpper)
    && r[70..78] == FormatField(e.devMinor, e.hexUpper)
    && r[78..86] == FormatField(e.rdevMajor, e.hexUpper)
    && r[86..94] == FormatField(e.rdevMinor, e.hexUpper)
    && r[94..102] == FormatField(|e.name| + 1, e.hexUpper)
    && r[102..110] == FormatField(if e.magic == Ascii("070702") then Sum(e.data) % 0x1_0000_0000 else 0, e.hexUpper)
  }

  /** Every number of an entry at its bytes of the printed record. */
  lemma RecordFields(e: NewcEntry)
    requires EntryFits(e)
    ensures RecordHas(Record(e), e)
  {
    hide Record, FormatField, EntryFits;
    MagicIs();
    MagicInRecord(e);
    NumberInRecord(e, 0);
    NumberInRecord(e, 1);
    NumberInRecord(e, 2);
    NumberInRecord(e, 3);
    NumberInRecord(e, 4);
    NumberInRecord(e, 5);
    NumberInRecord(e, 6);
    NumberInRecord(e, 7);
    NumberInRecord(e, 8);
    NumberInRecord(e, 9);
    NumberInRecord(e, 10);
    NumberInRecord(e, 11);
    NumberInRecord(e, 12);
  }

  lemma MagicInRecord(e: NewcEntry)
    requires EntryFits(e)
    ensures |Record(e)| >= 110 && Record(e)[..6] == e.magic
  {
    hide Record, Head, HeaderFields, FormatFields, Align;
    RecordLayout(e);
  }

  /** The header at `o` spells the magic and the thirteen numbers of `e`, with capital letters as its flag says. */
  ghost predicate HeaderSpells(p: seq<byte>, o: nat, e: NewcEntry) {
    && o + 110 <= |p|
    && e.magic == p[o..o + 6] && (e.magic == Ascii("070701") || e.magic == Ascii("070702"))
    && ParseField(p[o + 6..o + 14]) == Some(e.inode)
    && ParseField(p[o + 14..o + 22]) == Some(e.mode)
    && ParseField(p[o + 22..o + 30]) == Some(e.uid)
    && ParseField(p[o + 30..o + 38]) == Some(e.gid)
    && ParseField(p[o + 38..o + 46]) == Some(e.links)
    && ParseField(p[o + 46..o + 54]) == Some(e.mtime)
    && ParseField(p[o + 54..o + 62]) == Some(|e.data|)
    && ParseField(p[o + 62..o + 70]) == Some(e.devMajor)
    && ParseField(p[o + 70..o + 78]) == Some(e.devMinor)
    && ParseField(p[o + 78..o + 86]) == Some(e.rdevMajor)
    && ParseField(p[o + 86..o + 94]) == Some(e.rdevMinor)
    && ParseField(p[o + 94..o + 102]) == Some(|e.name| + 1)
    && ParseField(p[o + 102..o + 110]).Some?
    && (e.hexUpper <==> exists i :: o + 6 <= i < o + 110 && 'A' as int <= p[i] <= 'F' as int)
  }

  /** The name, its NUL and the data follow, each part aligned to words. */
  ghost predicate BodySpells(p: seq<byte>, o: nat, e: NewcEntry, next: nat) {
    var nameEnd, dataStart := o + 110 + |e.name|, Align(o + 111 + |e.name|, 4);
    && nameEnd < |p| && e.name == p[o + 110..nameEnd] && p[nameEnd] == 0
    && dataStart + |e.data| <= |p| && e.data == p[dataStart..dataStart + |e.data|]
    && next == Align(dataStart + |e.data|, 4)
  }

  /** Every parsed entry is read from its bytes, field by field. */
  lemma ParsedFields(p: seq<byte>, o: nat)
    requires o % 4 == 0 && ParseRecord(p, o).Ok?
    ensures var ParsedRecord(e, next) := ParseRecord(p, o).value; HeaderSpells(p, o, e) && BodySpells(p, o, e, next)
  {
    hide ParseRecord, ParseField, FieldAt, Align;
    MagicIs();
    ParsedBody(p, o);
    var e := ParseRecord(p, o).value.entry;
    AlignShift(111 + |e.name|, o, 4);
    AlignShift(Align(111 + |e.name|, 4) + |e.data|, o, 4);
    ParsedNumbers(p, o);
    FieldAtIs(p, o);
    UpperInHeader(p, o);
  }

  lemma FieldAtIs(p: seq<byte>, o: nat)
    requires o + 110 <= |p|
    ensures FieldAt(p, o, 0) == ParseField(p[o + 6..o + 14]) && FieldAt(p, o, 1) == ParseField(p[o + 14..o + 22])
    ensures FieldAt(p, o, 2) == ParseField(p[o + 22..o + 30]) && FieldAt(p, o, 3) == ParseField(p[o + 30..o + 38])
    ensures FieldAt(p, o, 4) == ParseField(p[o + 38..o + 46]) && FieldAt(p, o, 5) == ParseField(p[o + 46..o + 54])
    ensures FieldAt(p, o, 6) == ParseField(p[o + 54..o + 62]) && FieldAt(p, o, 7) == ParseField(p[o + 62..o + 70])
    ensures FieldAt(p, o, 8) == ParseField(p[o + 70..o + 78]) && FieldAt(p, o, 9) == ParseField(p[o + 78..o + 86])
    ensures FieldAt(p, o, 10) == ParseField(p[o + 86..o + 94]) && FieldAt(p, o, 11) == ParseField(p[o + 94..o + 102])
    ensures FieldAt(p, o, 12) == ParseField(p[o + 102..o + 110])
  {
    hide ParseField;
  }

  lemma ParsedNumbers(p: seq<byte>, o: nat)
    requires ParseRecord(p, o).Ok?
    ensures o + 110 <= |p|
    ensures var e := ParseRecord(p, o).value.entry;
      && FieldAt(p, o, 0) == Some(e.inode) && FieldAt(p, o, 1) == Some(e.mode) && FieldAt(p, o, 2) == Some(e.uid)
      && FieldAt(p, o, 3) == Some(e.gid) && FieldAt(p, o, 4) == Some(e.links) && FieldAt(p, o, 5) == Some(e.mtime)
      && FieldAt(p, o, 6) == Some(|e.data|) && FieldAt(p, o, 7) == Some(e.devMajor) && FieldAt(p, o, 8) == Some(e.devMinor)
      && FieldAt(p, o, 9) == Some(e.rdevMajor) && FieldAt(p, o, 10) == Some(e.rdevMinor)
      && FieldAt(p, o, 11) == Some(|e.name| + 1) && FieldAt(p, o, 12).Some?
  {
    hide ParseField, ParseFields, FieldAt, ValidUtf8, Align, HasUpper;
    FieldsOfHeader(p, o);
  }

  lemma UpperInHeader(p: seq<byte>, o: nat)
    requires ParseRecord(p, o).Ok?
    ensures var e := ParseRecord(p, o).value.entry;
      && e.magic == p[o..o + 6] && ValidMagic(e.magic)
      && (e.hexUpper <==> exists i :: o + 6 <= i < o + 110 && 'A' as int <= p[i] <= 'F' as int)
  {
    hide ParseField, ParseFields, ValidUtf8, Align;
    var header := p[o..o + 110];
    assert header[..6] == p[o..o + 6];
    var digits := header[6..];
    assert ParseRecord(p, o).value.entry.hexUpper == HasUpper(digits);
    assert forall i :: 0 <= i < 104 ==> digits[i] == p[o + 6 + i];
    if i :| o + 6 <= i < o + 110 && 'A' as int <= p[i] <= 'F' as int {
      assert digits[i - o - 6] == p[i];
    }
  }

  /** An entry that is read at an offset of a payload. */
  ghost predicate ReadAt(p: seq<byte>, o: nat, e: NewcEntry) {
    o % 4 == 0 && ParseRecord(p, o).Ok? && ParseRecord(p, o).value.entry == e
  }

  lemma {:induction false} EntriesAreReadFrom(p: seq<byte>, offset: nat, paths: set<Path>)
    requires offset % 4 == 0 && ParseFrom(p, offset, paths).Ok?
    ensures forall e :: e in ParseFrom(p, offset, paths).value.entries ==> exists o :: ReadAt(p, o, e)
    decreases |p| - offset
  {
    hide ParseRecord;
    var ParsedRecord(entry, next) := ParseRecord(p, offset).value;
    assert ReadAt(p, offset, entry);
    if entry.name != TRAILER {
      EntriesAreReadFrom(p, next, paths + {entry.name});
    }
  }

  /** Every entry of a parsed archive is read at some offset. */
  lemma EntriesAreRead(p: seq<byte>)
    requires Parsed(p).Ok?
    ensures forall e :: e in Parsed(p).value.entries ==> exists o :: ReadAt(p, o, e)
  {
    EntriesAreReadFrom(p, 0, {});
  }

  /** What the inspector makes of a name: "./" in front goes, then one "/"; any other name stays as it is. */
  lemma NormalizedIs(n: Path)
    ensures Normalized(Ascii("./") + n) == if Ascii("/") <= n then n[1..] else n
    ensures Normalized(Ascii("/") + n) == n
    ensures !(Ascii("./") <= n) && !(Ascii("/") <= n) ==> Normalized(n) == n
  {
    assert (Ascii("./") + n)[2..] == n && (Ascii("/") + n)[1..] == n;
    assert Ascii("./") == [0x2E, 0x2F] && Ascii("/") == [0x2F];
    assert (Ascii("/") + n)[0] == 0x2F;
  }

  /** A mode is that of a regular file exactly if its file type bits are those of type 8, whatever the other bits. */
  lemma IsRegularIs(permissions: nat, fileType: nat, above: int)
    requires permissions < 0x1000 && fileType < 0x10
    ensures IsRegular(0x1_0000 * above + 0x1000 * fileType + permissions) <==> fileType == 8
  {
    var mode := 0x1_0000 * above + 0x1000 * fileType + permissions;
    assert mode / 0x1000 == 0x10 * above + fileType;
  }
}
