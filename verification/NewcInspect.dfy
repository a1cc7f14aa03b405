/** The second newc reader, `parse_newc_archive` of `tools/inspect-android-boot-image.py`, against the first. */
module NewcInspect {
  import opened Bytes
  import opened Hex
  import opened Newc
  import opened NewcParse

  function RemovePrefix(s: seq<byte>, prefix: seq<byte>): seq<byte> {
    if prefix <= s then s[|prefix|..] else s
  }

  /** `name.removeprefix("./").removeprefix("/")`. */
  function Normalized(name: Path): Path {
    RemovePrefix(RemovePrefix(name, [0x2E, 0x2F]), [0x2F])
  }

  datatype FileRecord = FileRecord(name: Path, data: seq<byte>, next: nat)

  /** The `k`-th of the thirteen numbers of a header. */
  function FieldAt(p: seq<byte>, offset: nat, k: nat): Option<int>
    requires k < 13 && offset + NEWC_HEADER_SIZE <= |p|
  {
    var at := offset + 6 + 8 * k;
    ParseField(p[at..at + 8])
  }

  /** The checks of one turn of the inspector's loop, which needs only two of the numbers. */
  function InspectRecord(p: seq<byte>, offset: nat): (r: Result<FileRecord, ParseError>)
    ensures r.Ok? ==> offset < r.value.next && offset < |p|
  {
    var headerEnd := offset + NEWC_HEADER_SIZE;
    if headerEnd > |p| then Err(TruncatedHeader)
    else if !ValidMagic(p[offset..offset + 6]) then Err(BadMagic)
    else if exists k :: 0 <= k < 13 && FieldAt(p, offset, k).None? then Err(BadHeader) else
    var fileSize, nameSize := FieldAt(p, offset, 6).value, FieldAt(p, offset, 11).value;
    if nameSize < 1 then Err(BadNameSize) else
    var nameEnd := headerEnd + nameSize;
    if nameEnd > |p| || p[nameEnd - 1] != 0 then Err(BadName)
    else if !ValidUtf8(p[headerEnd..nameEnd - 1]) then Err(NotUtf8) else
    var dataStart := Align(nameEnd, 4);
    var dataEnd := dataStart + fileSize;
    if fileSize < 0 || dataEnd > |p| then Err(TruncatedData)
    else Ok(FileRecord(p[headerEnd..nameEnd - 1], p[dataStart..dataEnd], Align(dataEnd, 4)))
  }

  /** The dictionary built from `offset` on, when `files` has been collected before. */
  function InspectFrom(p: seq<byte>, offset: nat, files: map<Path, seq<byte>>): Result<map<Path, seq<byte>>, ParseError>
    decreases |p| - offset
  {
    var r := InspectRecord(p, offset);
    if r.Err? then Err(r.error) else
    var FileRecord(name, data, next) := r.value;
    if name == TRAILER then Ok(files)
    else if Normalized(name) in files then Err(DuplicatePath)
    else InspectFrom(p, next, files[Normalized(name) := data])
  }

  /** `parse_newc_archive`. */
  method ParseNewcArchive(archive: seq<byte>) returns (r: Result<map<Path, seq<byte>>, ParseError>)
    ensures r == InspectFrom(archive, 0, map[])
  {
    hide InspectRecord;
    var entries: map<Path, seq<byte>>, offset: nat := map[], 0;
    while true
      invariant InspectFrom(archive, 0, map[]) == InspectFrom(archive, offset, entries)
      decreases |archive| - offset
    {
      var record := InspectRecord(archive, offset);
      if record.Err? {
        return Err(record.error);
      }
      var FileRecord(name, data, next) := record.value;
      if name == TRAILER {
        return Ok(entries);
      }
      var normalized := Normalized(name);
      if normalized in entries {
        return Err(DuplicatePath);
      }
      entries := entries[normalized := data];
      offset := next;
    }
  }

  function Eight(s: seq<byte>, k: nat): seq<byte>
    requires 8 * k + 8 <= |s|
  {
    s[8 * k..8 * k + 8]
  }

  lemma EightOfRest(s: seq<byte>, k: nat)
    requires k > 0 && 8 * k + 8 <= |s|
    ensures Eight(s[8..], k - 1) == Eight(s, k)
  {
    assert |Eight(s[8..], k - 1)| == |Eight(s, k)| == 8;
    forall i | 0 <= i < 8 ensures Eight(s[8..], k - 1)[i] == Eight(s, k)[i] {
      assert s[8..][8 * (k - 1) + i] == s[8 * k + i];
    }
  }

  lemma {:induction false} FieldsAre(s: seq<byte>, k: nat)
    requires |s| % 8 == 0 && k < |s| / 8
    ensures ParseFields(s).Some? ==> ParseField(Eight(s, k)) == Some(ParseFields(s).value[k])
    ensures ParseField(Eight(s, k)).None? ==> ParseFields(s).None?
  {
    hide ParseField;
    if k > 0 {
      EightOfRest(s, k);
      FieldsAre(s[8..], k - 1);
    }
  }

  lemma {:induction false} SomeFieldFails(s: seq<byte>) returns (k: nat)
    requires |s| % 8 == 0 && ParseFields(s).None?
    ensures k < |s| / 8 && ParseField(Eight(s, k)).None?
  {
    hide ParseField;
    k := 0;
    if ParseField(s[..8]).Some? {
      var rest := SomeFieldFails(s[8..]);
      EightOfRest(s, rest + 1);
      k := rest + 1;
    }
  }

  lemma FieldIsEight(p: seq<byte>, offset: nat, k: nat)
    requires k < 13 && offset + NEWC_HEADER_SIZE <= |p|
    ensures FieldAt(p, offset, k) == ParseField(Eight(p[offset..offset + NEWC_HEADER_SIZE][6..], k))
  {
    hide ParseField;
    var header, at := p[offset..offset + NEWC_HEADER_SIZE], offset + 6 + 8 * k;
    assert |Eight(header[6..], k)| == |p[at..at + 8]| == 8;
    forall i | 0 <= i < 8 ensures Eight(header[6..], k)[i] == p[at..at + 8][i] {
      assert header[6..][8 * k + i] == header[6 + 8 * k + i] == p[at + i];
    }
    assert Eight(header[6..], k) == p[at..at + 8];
  }

  lemma FieldsOfHeader(p: seq<byte>, offset: nat)
    requires offset + NEWC_HEADER_SIZE <= |p|
    ensures var fields := ParseFields(p[offset..offset + NEWC_HEADER_SIZE][6..]);
      && (fields.None? <==> exists k :: 0 <= k < 13 && FieldAt(p, offset, k).None?)
      && (fields.Some? ==> forall k :: 0 <= k < 13 ==> FieldAt(p, offset, k) == Some(fields.value[k]))
  {
    hide ParseField, ParseFields, FieldAt, Eight;
    var s := p[offset..offset + NEWC_HEADER_SIZE][6..];
    forall k | 0 <= k < 13
      ensures FieldAt(p, offset, k).None? ==> ParseFields(s).None?
      ensures ParseFields(s).Some? ==> FieldAt(p, offset, k) == Some(ParseFields(s).value[k])
    {
      FieldIsEight(p, offset, k);
      FieldsAre(s, k);
    }
    if ParseFields(s).None? {
      var k := SomeFieldFails(s);
      FieldIsEight(p, offset, k);
    }
  }

  /** The inspector's checks are those of the rewriter: the same error, or the same name, data and next offset. */
  lemma RecordsAgree(p: seq<byte>, offset: nat)
    ensures var a, b := ParseRecord(p, offset), InspectRecord(p, offset);
      if a.Err? then b == Err(a.error) else b == Ok(FileRecord(a.value.entry.name, a.value.entry.data, a.value.next))
  {
    hide ParseField, ParseFields, FieldAt, ValidUtf8, Align, HasUpper, ValidMagic;
    if offset + NEWC_HEADER_SIZE <= |p| {
      var header := p[offset..offset + NEWC_HEADER_SIZE];
      assert header[..6] == p[offset..offset + 6];
      FieldsOfHeader(p, offset);
    }
  }

  /** The entries before the trailer. */
  function Files(a: NewcArchive): seq<NewcEntry>
    requires a.entries != []
  {
    a.entries[..|a.entries| - 1]
  }

  /** Normalised name to data. */
  function FileMap(files: seq<NewcEntry>): map<Path, seq<byte>> {
    if files == [] then map[] else map[Normalized(files[0].name) := files[0].data] + FileMap(files[1..])
  }

  /** No two files, and no file and an earlier name, normalise alike. */
  ghost predicate FreshNames(files: seq<NewcEntry>, seen: set<Path>) {
    && (forall i :: 0 <= i < |files| ==> Normalized(files[i].name) !in seen)
    && (forall i, j :: 0 <= i < j < |files| ==> Normalized(files[i].name) != Normalized(files[j].name))
  }

  lemma FreshNamesCons(e: NewcEntry, files: seq<NewcEntry>, seen: set<Path>)
    ensures FreshNames([e] + files, seen)
       <==> Normalized(e.name) !in seen && FreshNames(files, seen + {Normalized(e.name)})
  {
    hide Normalized;
    var all := [e] + files;
    assert all[0] == e && forall i :: 0 <= i < |files| ==> all[i + 1] == files[i];
    if Normalized(e.name) !in seen && FreshNames(files, seen + {Normalized(e.name)}) {
      forall i, j | 0 <= i < j < |all| ensures Normalized(all[i].name) != Normalized(all[j].name) {
        assert all[j] == files[j - 1];
        if i > 0 {
          assert all[i] == files[i - 1];
        }
      }
    }
  }

  ghost function NormalizedSet(paths: set<Path>): set<Path> {
    set x | x in paths :: Normalized(x)
  }

  lemma {:induction false} FileMapKeys(files: seq<NewcEntry>)
    ensures FileMap(files).Keys == set i | 0 <= i < |files| :: Normalized(files[i].name)
  {
    hide Normalized;
    if files != [] {
      FileMapKeys(files[1..]);
      var names := set i | 0 <= i < |files| :: Normalized(files[i].name);
      var rest := set i | 0 <= i < |files[1..]| :: Normalized(files[1..][i].name);
      assert names == {Normalized(files[0].name)} + rest by {
        forall i | 0 <= i < |files| ensures Normalized(files[i].name) in {Normalized(files[0].name)} + rest {
          if i > 0 {
            assert files[1..][i - 1] == files[i];
          }
        }
        forall i | 0 <= i < |files[1..]| ensures Normalized(files[1..][i].name) in names {
          assert files[1..][i] == files[i + 1];
        }
      }
    }
  }

  lemma {:induction false} InspectAgreesFrom(p: seq<byte>, offset: nat, files: map<Path, seq<byte>>, paths: set<Path>)
    requires files.Keys == NormalizedSet(paths)
    ensures var a, m := ParseFrom(p, offset, paths), InspectFrom(p, offset, files);
      && (a.Ok? ==> a.value.entries != [])
      && (m.Ok? <==> a.Ok? && FreshNames(Files(a.value), files.Keys))
      && (m.Ok? ==> m.value == files + FileMap(Files(a.value)))
    decreases |p| - offset
  {
    hide ParseRecord, InspectRecord, Normalized;
    RecordsAgree(p, offset);
    var r := ParseRecord(p, offset);
    if r.Ok? && r.value.entry.name != TRAILER {
      var ParsedRecord(e, next) := r.value;
      var key := Normalized(e.name);
      assert NormalizedSet(paths + {e.name}) == NormalizedSet(paths) + {key};
      InspectAgreesFrom(p, next, files[key := e.data], paths + {e.name});
      var rest := ParseFrom(p, next, paths + {e.name});
      if e.name !in paths && rest.Ok? {
        assert Files(ParseFrom(p, offset, paths).value) == [e] + Files(rest.value);
        FreshNamesCons(e, Files(rest.value), files.Keys);
        FileMapCons(e, Files(rest.value), files);
      }
    }
  }

  lemma FileMapCons(e: NewcEntry, files: seq<NewcEntry>, before: map<Path, seq<byte>>)
    ensures before + FileMap([e] + files) == before[Normalized(e.name) := e.data] + FileMap(files)
  {
    hide Normalized;
    assert ([e] + files)[1..] == files;
  }

  /** The second reader accepts what the first accepts with names that stay distinct when normalised, */
  /** and its dictionary sends exactly the normalised names of the files to their data. */
  lemma InspectAgrees(p: seq<byte>)
    ensures var a, m := Parsed(p), InspectFrom(p, 0, map[]);
      && (a.Ok? ==> a.value.entries != [])
      && (m.Ok? <==> a.Ok? && FreshNames(Files(a.value), {}))
      && (m.Ok? ==>
            && (m.value.Keys == set i | 0 <= i < |Files(a.value)| :: Normalized(Files(a.value)[i].name))
            && forall i :: 0 <= i < |Files(a.value)| ==>
                 var e := Files(a.value)[i]; Normalized(e.name) in m.value && m.value[Normalized(e.name)] == e.data)
  {
    hide ParseFrom, InspectFrom, Normalized, FileMap;
    InspectAgreesFrom(p, 0, map[], {});
    var a, m := Parsed(p), InspectFrom(p, 0, map[]);
    if m.Ok? {
      var files := Files(a.value);
      FileMapKeys(files);
      forall i | 0 <= i < |files|
        ensures Normalized(files[i].name) in m.value && m.value[Normalized(files[i].name)] == files[i].data
      {
        FileMapAt(files, i);
      }
    }
  }

  lemma {:induction false} FileMapAt(files: seq<NewcEntry>, i: nat)
    requires i < |files| && FreshNames(files, {})
    ensures Normalized(files[i].name) in FileMap(files) && FileMap(files)[Normalized(files[i].name)] == files[i].data
  {
    hide Normalized;
    FileMapKeys(files[1..]);
    if i > 0 {
      FileMapAt(files[1..], i - 1);
    } else {
      assert forall j :: 0 <= j < |files[1..]| ==> files[1..][j] == files[j + 1];
    }
  }
}
