/** The edits of `tools/rewrite-newc-ramdisk.py`: copy from a donor, replace data, delete, and the difference report. */
module RamdiskEdit {
  import opened Bytes
  import opened Hex
  import opened Newc

  datatype EditError =
    | NoTrailer | AbsentInDonor | AbsentInBase | NotRegular | SourceNotFile
    | DeletesTrailer | MultiplyLinked | NonemptyDirectory

  /** `{entry.path: entry for entry in entries}`: the last entry of a name wins. */
  function ByPath(entries: seq<NewcEntry>): map<Path, NewcEntry> {
    if entries == [] then map[]
    else var last := entries[|entries| - 1]; ByPath(entries[..|entries| - 1])[last.name := last]
  }

  /** `{entry.path: index for index, entry in enumerate(entries)}`. */
  function IndexByPath(entries: seq<NewcEntry>): map<Path, nat> {
    if entries == [] then map[]
    else IndexByPath(entries[..|entries| - 1])[entries[|entries| - 1].name := |entries| - 1]
  }

  function Names(entries: seq<NewcEntry>): set<Path> {
    set i | 0 <= i < |entries| :: entries[i].name
  }

  lemma NamesInit(entries: seq<NewcEntry>)
    requires entries != []
    ensures Names(entries) == Names(entries[..|entries| - 1]) + {entries[|entries| - 1].name}
    ensures DistinctNames(entries) ==> entries[|entries| - 1].name !in Names(entries[..|entries| - 1])
  {
    var init := entries[..|entries| - 1];
    assert forall i :: 0 <= i < |init| ==> init[i] == entries[i];
  }

  lemma {:induction false} ByPathDistinct(entries: seq<NewcEntry>)
    requires DistinctNames(entries)
    ensures ByPath(entries).Keys == Names(entries)
    ensures forall i :: 0 <= i < |entries| ==>
      entries[i].name in ByPath(entries) && ByPath(entries)[entries[i].name] == entries[i]
  {
    if entries != [] {
      var init := entries[..|entries| - 1];
      ByPathDistinct(init);
      NamesInit(entries);
      assert forall i :: 0 <= i < |init| ==> init[i] == entries[i];
    }
  }

  lemma {:induction false} IndexByPathSound(entries: seq<NewcEntry>)
    ensures IndexByPath(entries).Keys == Names(entries)
    ensures forall p :: p in IndexByPath(entries) ==>
      IndexByPath(entries)[p] < |entries| && entries[IndexByPath(entries)[p]].name == p
  {
    if entries != [] {
      IndexByPathSound(entries[..|entries| - 1]);
      NamesInit(entries);
    }
  }

  lemma {:induction false} IndexByPathSame(a: seq<NewcEntry>, b: seq<NewcEntry>)
    requires |a| == |b| && forall i :: 0 <= i < |a| ==> a[i].name == b[i].name
    ensures IndexByPath(a) == IndexByPath(b)
  {
    if a != [] {
      IndexByPathSame(a[..|a| - 1], b[..|b| - 1]);
    }
  }

  function MaxInode(entries: seq<NewcEntry>): (m: int)
    requires entries != []
    ensures forall i :: 0 <= i < |entries| ==> entries[i].inode <= m
    ensures exists i :: 0 <= i < |entries| && entries[i].inode == m
  {
    var first := entries[0].inode;
    if |entries| == 1 then first
    else
      var rest := MaxInode(entries[1..]);
      assert forall i :: 1 <= i < |entries| ==> entries[i] == entries[1..][i - 1];
      if first >= rest then first else rest
  }

  // ---- Copying

  /** A target entry that takes metadata and data from its donor, keeping magic, case, inode, device and name. */
  function Overlay(target: NewcEntry, donor: NewcEntry): NewcEntry {
    target.(mode := donor.mode, uid := donor.uid, gid := donor.gid, links := donor.links, mtime := donor.mtime,
            rdevMajor := donor.rdevMajor, rdevMinor := donor.rdevMinor, data := donor.data)
  }

  function Insert<T>(s: seq<T>, i: nat, x: T): seq<T>
    requires i <= |s|
  {
    s[..i] + [x] + s[i..]
  }

  /** The loop of `copied_archive` over the paths that remain. */
  function CopySteps(entries: seq<NewcEntry>, trailer: nat, inode: int, donors: map<Path, NewcEntry>, paths: seq<Path>):
      (r: Result<seq<NewcEntry>, EditError>)
    requires trailer <= |entries|
    decreases |paths|
  {
    if paths == [] then Ok(entries)
    else if paths[0] !in donors then Err(AbsentInDonor)
    else
      var donor, index := donors[paths[0]], IndexByPath(entries);
      if paths[0] !in index then
        CopySteps(Insert(entries, trailer, donor.(inode := inode)), trailer + 1, inode + 1, donors, paths[1..])
      else
        IndexByPathSound(entries);
        var i := index[paths[0]];
        CopySteps(entries[i := Overlay(entries[i], donor)], trailer, inode, donors, paths[1..])
  }

  function Copied(base: NewcArchive, donor: NewcArchive, paths: seq<Path>): Result<NewcArchive, EditError> {
    IndexByPathSound(base.entries);
    if TRAILER !in IndexByPath(base.entries) then Err(NoTrailer)
    else
      var trailer := IndexByPath(base.entries)[TRAILER];
      var r := CopySteps(base.entries, trailer, MaxInode(base.entries) + 1, ByPath(donor.entries), paths);
      if r.Err? then Err(r.error) else Ok(NewcArchive(r.value, base.tail))
  }

  /** `copied_archive`: one list updated in place, its index rebuilt after every insertion. */
  method CopiedArchive(base: NewcArchive, donor: NewcArchive, paths: seq<Path>) returns (r: Result<NewcArchive, EditError>)
    ensures r == Copied(base, donor, paths)
  {
    var entries, donors, index := base.entries, ByPath(donor.entries), IndexByPath(base.entries);
    IndexByPathSound(entries);
    if TRAILER !in index {
      return Err(NoTrailer);
    }
    var trailer: nat, inode := index[TRAILER], MaxInode(entries) + 1;
    ghost var expected := CopySteps(entries, trailer, inode, donors, paths);
    for k := 0 to |paths|
      invariant trailer <= |entries| && index == IndexByPath(entries)
      invariant CopySteps(entries, trailer, inode, donors, paths[k..]) == expected
    {
      var path := paths[k];
      assert paths[k..][0] == path && paths[k..][1..] == paths[k + 1..];
      if path !in donors {
        return Err(AbsentInDonor);
      }
      IndexByPathSound(entries);
      if path !in index {
        entries := Insert(entries, trailer, donors[path].(inode := inode));
        inode := inode + 1;
        index := IndexByPath(entries);
        trailer := trailer + 1;
      } else {
        var i := index[path];
        var updated := entries[i := Overlay(entries[i], donors[path])];
        IndexByPathSame(entries, updated);
        entries := updated;
      }
    }
    assert paths[|paths|..] == [];
    r := Ok(NewcArchive(entries, base.tail));
  }

  predicate DistinctPaths(paths: seq<Path>) {
    forall i, j :: 0 <= i < j < |paths| ==> paths[i] != paths[j]
  }

  /** What copying makes of an entry of the base. */
  function OverlayIfCopied(e: NewcEntry, donors: map<Path, NewcEntry>, paths: seq<Path>): (r: NewcEntry)
    ensures r.name == e.name && r.inode == e.inode && r.magic == e.magic
  {
    if e.name in paths && e.name in donors then Overlay(e, donors[e.name]) else e
  }

  function OverlayAll(entries: seq<NewcEntry>, donors: map<Path, NewcEntry>, paths: seq<Path>): (r: seq<NewcEntry>)
    ensures |r| == |entries|
    ensures forall i :: 0 <= i < |r| ==> r[i] == OverlayIfCopied(entries[i], donors, paths)
  {
    seq(|entries|, i requires 0 <= i < |entries| => OverlayIfCopied(entries[i], donors, paths))
  }

  /** The donor entries of the paths that the base lacks, in argument order, with consecutive inodes from `inode`. */
  function Additions(names: set<Path>, inode: int, donors: map<Path, NewcEntry>, paths: seq<Path>): seq<NewcEntry>
    decreases |paths|
  {
    if paths == [] then []
    else if paths[0] in names || paths[0] !in donors then Additions(names, inode, donors, paths[1..])
    else [donors[paths[0]].(inode := inode)] + Additions(names + {paths[0]}, inode + 1, donors, paths[1..])
  }

  /** Copying in one step: every base entry in place and overlaid, the additions before the last entry. */
  function CopiedForm(entries: seq<NewcEntry>, inode: int, donors: map<Path, NewcEntry>, paths: seq<Path>): seq<NewcEntry>
    requires entries != []
  {
    var overlaid := OverlayAll(entries, donors, paths);
    overlaid[..|entries| - 1] + Additions(Names(entries), inode, donors, paths) + overlaid[|entries| - 1..]
  }

  /** Each donor is stored under its own name. */
  ghost predicate Keyed(donors: map<Path, NewcEntry>) {
    forall p :: p in donors ==> donors[p].name == p
  }

  lemma {:induction false} ByPathKeyed(entries: seq<NewcEntry>)
    ensures Keyed(ByPath(entries))
  {
    if entries != [] {
      ByPathKeyed(entries[..|entries| - 1]);
    }
  }

  lemma NamesInsert(entries: seq<NewcEntry>, i: nat, e: NewcEntry)
    requires i <= |entries|
    ensures Names(Insert(entries, i, e)) == Names(entries) + {e.name}
    ensures DistinctNames(entries) && e.name !in Names(entries) ==> DistinctNames(Insert(entries, i, e))
  {
    var all := Insert(entries, i, e);
    assert all[i] == e;
    assert forall k :: 0 <= k < i ==> all[k] == entries[k];
    assert forall k :: i <= k < |entries| ==> all[k + 1] == entries[k];
    forall p | p in Names(all) ensures p in Names(entries) + {e.name} {
      var k :| 0 <= k < |all| && all[k].name == p;
      assert k < i || k == i || all[k] == entries[k - 1];
    }
    if DistinctNames(entries) && e.name !in Names(entries) {
      forall j, k | 0 <= j < k < |all| ensures all[j].name != all[k].name {
        DistinctAfterInsert(entries, i, e, j, k);
      }
    }
  }

  lemma DistinctAfterInsert(entries: seq<NewcEntry>, i: nat, e: NewcEntry, j: nat, k: nat)
    requires i <= |entries| && DistinctNames(entries) && e.name !in Names(entries) && j < k <= |entries|
    ensures Insert(entries, i, e)[j].name != Insert(entries, i, e)[k].name
  {
    var a, b := Insert(entries, i, e)[j], Insert(entries, i, e)[k];
    assert a == if j < i then entries[j] else if j == i then e else entries[j - 1];
    assert b == if k < i then entries[k] else if k == i then e else entries[k - 1];
  }

  /** Overlaying commutes with inserting an entry that no remaining path names. */
  lemma OverlayInsert(entries: seq<NewcEntry>, i: nat, e: NewcEntry, donors: map<Path, NewcEntry>, rest: seq<Path>)
    requires i <= |entries| && e.name !in Names(entries) && e.name !in rest
    ensures OverlayAll(Insert(entries, i, e), donors, rest)
         == Insert(OverlayAll(entries, donors, [e.name] + rest), i, e)
  {
    hide Overlay;
    forall k | 0 <= k < |entries|
      ensures OverlayIfCopied(entries[k], donors, [e.name] + rest) == OverlayIfCopied(entries[k], donors, rest)
    {
      assert entries[k].name in Names(entries);
      OverlayOneSkips(entries[k], donors, e.name, rest);
    }
  }

  lemma OverlayOneSkips(e: NewcEntry, donors: map<Path, NewcEntry>, path: Path, rest: seq<Path>)
    requires path != e.name
    ensures OverlayIfCopied(e, donors, [path] + rest) == OverlayIfCopied(e, donors, rest)
  {
  }

  /** Overlaying one entry first and the remaining paths later is overlaying them all. */
  lemma OverlayFirst(files: seq<NewcEntry>, i: nat, donors: map<Path, NewcEntry>, rest: seq<Path>)
    requires i < |files| && DistinctNames(files) && files[i].name in donors && files[i].name !in rest
    ensures OverlayAll(files[i := Overlay(files[i], donors[files[i].name])], donors, rest)
         == OverlayAll(files, donors, [files[i].name] + rest)
  {
    var path := files[i].name;
    var updated := files[i := Overlay(files[i], donors[path])];
    forall k | 0 <= k < |files|
      ensures OverlayAll(updated, donors, rest)[k] == OverlayAll(files, donors, [path] + rest)[k]
    {
      if k != i {
        OverlayOneSkips(files[k], donors, path, rest);
      }
    }
  }

  lemma NamesAfterOverlay(files: seq<NewcEntry>, i: nat, donor: NewcEntry)
    requires i < |files|
    ensures Names(files[i := Overlay(files[i], donor)]) == Names(files)
  {
    var updated := files[i := Overlay(files[i], donor)];
    assert forall k :: 0 <= k < |files| ==> updated[k].name == files[k].name;
    assert forall k :: 0 <= k < |files| ==> files[k].name in Names(updated) && updated[k].name in Names(files);
  }

  lemma FormAfterOverlay(entries: seq<NewcEntry>, i: nat, inode: int, donors: map<Path, NewcEntry>, rest: seq<Path>)
    requires i < |entries| && DistinctNames(entries) && entries[i].name in donors && entries[i].name !in rest
    ensures CopiedForm(entries[i := Overlay(entries[i], donors[entries[i].name])], inode, donors, rest)
         == CopiedForm(entries, inode, donors, [entries[i].name] + rest)
  {
    hide Overlay, OverlayAll, Names;
    OverlayFirst(entries, i, donors, rest);
    NamesAfterOverlay(entries, i, donors[entries[i].name]);
    assert entries[i].name in Names(entries) by { NameIsIn(entries, i); }
    assert ([entries[i].name] + rest)[1..] == rest;
  }

  lemma NameIsIn(entries: seq<NewcEntry>, i: nat)
    requires i < |entries|
    ensures entries[i].name in Names(entries)
  {
  }

  lemma FormAfterInsert(entries: seq<NewcEntry>, path: Path, inode: int, donors: map<Path, NewcEntry>, rest: seq<Path>)
    requires entries != [] && Keyed(donors) && path in donors && path !in Names(entries) && path !in rest
    ensures CopiedForm(Insert(entries, |entries| - 1, donors[path].(inode := inode)), inode + 1, donors, rest)
         == CopiedForm(entries, inode, donors, [path] + rest)
  {
    hide Overlay, OverlayAll, Names;
    var e := donors[path].(inode := inode);
    NamesInsert(entries, |entries| - 1, e);
    OverlayInsert(entries, |entries| - 1, e, donors, rest);
    assert ([path] + rest)[1..] == rest;
    var overlaid := OverlayAll(entries, donors, [path] + rest);
    InsertSplit(overlaid, e);
  }

  lemma InsertSplit<T>(s: seq<T>, x: T)
    requires s != []
    ensures Insert(s, |s| - 1, x)[..|s|] == s[..|s| - 1] + [x]
    ensures Insert(s, |s| - 1, x)[|s|..] == s[|s| - 1..]
  {
  }

  /** The copying loop computes the one-step form, and fails exactly on a path the donor lacks. */
  lemma {:induction false} CopyStepsForm(entries: seq<NewcEntry>, inode: int, donors: map<Path, NewcEntry>, paths: seq<Path>)
    requires entries != [] && DistinctNames(entries) && DistinctPaths(paths) && Keyed(donors)
    ensures var r := CopySteps(entries, |entries| - 1, inode, donors, paths);
      && (r.Ok? <==> forall p :: p in paths ==> p in donors)
      && (r.Ok? ==> r.value == CopiedForm(entries, inode, donors, paths))
    decreases |paths|
  {
    hide Overlay, Names, CopiedForm, DistinctNames;
    if paths == [] {
      CopiedNothing(entries, inode, donors);
    } else if paths[0] in donors {
      var path, rest := paths[0], paths[1..];
      assert paths == [path] + rest;
      IndexByPathSound(entries);
      if path in IndexByPath(entries) {
        var i := IndexByPath(entries)[path];
        FormAfterOverlay(entries, i, inode, donors, rest);
        DistinctAfterOverlay(entries, i, donors[path]);
        CopyStepsForm(entries[i := Overlay(entries[i], donors[path])], inode, donors, rest);
      } else {
        var e := donors[path].(inode := inode);
        FormAfterInsert(entries, path, inode, donors, rest);
        NamesInsert(entries, |entries| - 1, e);
        CopyStepsForm(Insert(entries, |entries| - 1, e), inode + 1, donors, rest);
      }
    }
  }

  lemma CopiedNothing(entries: seq<NewcEntry>, inode: int, donors: map<Path, NewcEntry>)
    requires entries != []
    ensures CopiedForm(entries, inode, donors, []) == entries
  {
    assert OverlayAll(entries, donors, []) == entries;
  }

  lemma DistinctAfterOverlay(entries: seq<NewcEntry>, i: nat, donor: NewcEntry)
    requires i < |entries| && DistinctNames(entries)
    ensures DistinctNames(entries[i := Overlay(entries[i], donor)])
  {
    var updated := entries[i := Overlay(entries[i], donor)];
    assert forall k :: 0 <= k < |entries| ==> updated[k].name == entries[k].name;
  }

  // ---- Replacing data

  /** A path and the bytes of its source, or None when the source is not a file. */
  datatype Replacement = Replacement(path: Path, source: Option<seq<byte>>)

  /** `stat.S_ISREG`. */
  predicate IsRegular(mode: int) { mode / 0x1000 % 0x10 == 8 }

  function ReplaceSteps(entries: seq<NewcEntry>, replacements: seq<Replacement>): Result<seq<NewcEntry>, EditError>
    decreases |replacements|
  {
    if replacements == [] then Ok(entries)
    else
      var Replacement(path, source) := replacements[0];
      IndexByPathSound(entries);
      var index := IndexByPath(entries);
      if path !in index then Err(AbsentInBase)
      else if path == TRAILER || !IsRegular(entries[index[path]].mode) then Err(NotRegular)
      else if source.None? then Err(SourceNotFile)
      else ReplaceSteps(entries[index[path] := entries[index[path]].(data := source.value)], replacements[1..])
  }

  /** `data_replaced_archive`. Replacing data moves no entry, so the index is built once. */
  method DataReplacedArchive(base: NewcArchive, replacements: seq<Replacement>) returns (r: Result<NewcArchive, EditError>)
    ensures var steps := ReplaceSteps(base.entries, replacements);
      r == if steps.Ok? then Ok(NewcArchive(steps.value, base.tail)) else Err(steps.error)
  {
    var entries, index := base.entries, IndexByPath(base.entries);
    ghost var expected := ReplaceSteps(entries, replacements);
    for k := 0 to |replacements|
      invariant index == IndexByPath(entries)
      invariant ReplaceSteps(entries, replacements[k..]) == expected
    {
      var Replacement(path, source) := replacements[k];
      assert replacements[k..][0] == replacements[k] && replacements[k..][1..] == replacements[k + 1..];
      IndexByPathSound(entries);
      if path !in index {
        return Err(AbsentInBase);
      }
      var i := index[path];
      if path == TRAILER || !IsRegular(entries[i].mode) {
        return Err(NotRegular);
      }
      if source.None? {
        return Err(SourceNotFile);
      }
      var updated := entries[i := entries[i].(data := source.value)];
      IndexByPathSame(entries, updated);
      entries := updated;
    }
    assert replacements[|replacements|..] == [];
    r := Ok(NewcArchive(entries, base.tail));
  }

  /** The new data of each path, where there is a source. */
  function NewData(replacements: seq<Replacement>): (m: map<Path, seq<byte>>)
    ensures forall p :: p in m ==> exists i :: 0 <= i < |replacements| && replacements[i].path == p
  {
    if replacements == [] then map[]
    else
      var rest := NewData(replacements[1..]);
      assert forall i :: 0 <= i < |replacements[1..]| ==> replacements[1..][i] == replacements[i + 1];
      assert replacements[0].path == replacements[0].path;
      if replacements[0].source.None? then rest else rest[replacements[0].path := replacements[0].source.value]
  }

  predicate DistinctTargets(replacements: seq<Replacement>) {
    forall i, j :: 0 <= i < j < |replacements| ==> replacements[i].path != replacements[j].path
  }

  function Substitute(e: NewcEntry, data: map<Path, seq<byte>>): (r: NewcEntry)
    ensures r == e.(data := r.data)
  {
    if e.name in data then e.(data := data[e.name]) else e
  }

  function SubstituteAll(entries: seq<NewcEntry>, data: map<Path, seq<byte>>): (r: seq<NewcEntry>)
    ensures |r| == |entries|
    ensures forall i :: 0 <= i < |r| ==> r[i] == Substitute(entries[i], data)
  {
    seq(|entries|, i requires 0 <= i < |entries| => Substitute(entries[i], data))
  }

  lemma SubstituteFirst(entries: seq<NewcEntry>, i: nat, data: seq<byte>, rest: map<Path, seq<byte>>)
    requires i < |entries| && DistinctNames(entries) && entries[i].name !in rest
    ensures var updated := entries[i := entries[i].(data := data)];
      && SubstituteAll(updated, rest) == SubstituteAll(entries, rest[entries[i].name := data])
      && DistinctNames(updated)
  {
    var updated := entries[i := entries[i].(data := data)];
    assert forall k :: 0 <= k < |entries| ==> updated[k].name == entries[k].name;
  }

  /** A target that can be replaced: a present regular file other than the trailer, with a readable source. */
  predicate Replaceable(byPath: map<Path, NewcEntry>, r: Replacement) {
    r.path in byPath && r.path != TRAILER && IsRegular(byPath[r.path].mode) && r.source.Some?
  }

  predicate AllReplaceable(byPath: map<Path, NewcEntry>, replacements: seq<Replacement>) {
    forall r :: r in replacements ==> Replaceable(byPath, r)
  }

  /** New data for one entry changes nothing about which targets can be replaced. */
  lemma ReplaceableAfter(entries: seq<NewcEntry>, i: nat, data: seq<byte>, replacements: seq<Replacement>)
    requires i < |entries| && DistinctNames(entries)
    ensures AllReplaceable(ByPath(entries[i := entries[i].(data := data)]), replacements)
       <==> AllReplaceable(ByPath(entries), replacements)
  {
    hide ByPath, IsRegular;
    var updated := entries[i := entries[i].(data := data)];
    SubstituteFirst(entries, i, data, map[]);
    IndexByPathSame(entries, updated);
    IndexByPathSound(entries);
    IndexByPathSound(updated);
    ByPathDistinct(entries);
    ByPathDistinct(updated);
    forall r ensures Replaceable(ByPath(updated), r) <==> Replaceable(ByPath(entries), r) {
      if r.path in ByPath(entries) {
        var k := IndexByPath(entries)[r.path];
        assert ByPath(entries)[entries[k].name] == entries[k] && ByPath(updated)[updated[k].name] == updated[k];
      }
    }
  }

  lemma IndexIsEntry(entries: seq<NewcEntry>, path: Path)
    requires DistinctNames(entries)
    ensures path in ByPath(entries) <==> path in IndexByPath(entries)
    ensures path in IndexByPath(entries) ==>
      IndexByPath(entries)[path] < |entries| && ByPath(entries)[path] == entries[IndexByPath(entries)[path]]
  {
    IndexByPathSound(entries);
    ByPathDistinct(entries);
  }

  /** Replacing succeeds exactly when every target can be replaced, and then it is substituting all at once. */
  lemma {:induction false} ReplaceStepsForm(entries: seq<NewcEntry>, replacements: seq<Replacement>)
    requires DistinctNames(entries) && DistinctTargets(replacements)
    ensures var r := ReplaceSteps(entries, replacements);
      && (r.Ok? <==> AllReplaceable(ByPath(entries), replacements))
      && (r.Ok? ==> r.value == SubstituteAll(entries, NewData(replacements)))
    decreases |replacements|
  {
    hide DistinctNames, IsRegular, ByPath, AllReplaceable;
    if replacements == [] {
      assert SubstituteAll(entries, map[]) == entries;
      NoneToReplace(ByPath(entries));
    } else {
      var Replacement(path, source) := replacements[0];
      var rest := replacements[1..];
      assert replacements == [replacements[0]] + rest;
      FirstToReplace(ByPath(entries), replacements[0], rest);
      IndexIsEntry(entries, path);
      if Replaceable(ByPath(entries), replacements[0]) {
        var i := IndexByPath(entries)[path];
        assert DistinctTargets(rest) && path !in NewData(rest) by {
          assert forall k :: 0 <= k < |rest| ==> rest[k] == replacements[k + 1];
        }
        IndexByPathSound(entries);
        SubstituteFirst(entries, i, source.value, NewData(rest));
        ReplaceableAfter(entries, i, source.value, rest);
        ReplaceStepsForm(entries[i := entries[i].(data := source.value)], rest);
      }
    }
  }

  lemma NoneToReplace(byPath: map<Path, NewcEntry>)
    ensures AllReplaceable(byPath, [])
  {
  }

  lemma FirstToReplace(byPath: map<Path, NewcEntry>, first: Replacement, rest: seq<Replacement>)
    ensures AllReplaceable(byPath, [first] + rest) <==> Replaceable(byPath, first) && AllReplaceable(byPath, rest)
  {
    assert first in [first] + rest && forall r :: r in rest ==> r in [first] + rest;
  }

  // ---- Deleting

  /** `[entry for entry in entries if entry.path not in dead]`. */
  function Kept(entries: seq<NewcEntry>, dead: set<Path>): seq<NewcEntry> {
    if entries == [] then []
    else (if entries[0].name in dead then [] else [entries[0]]) + Kept(entries[1..], dead)
  }

  const SLASH: byte := 0x2F

  /** Why a path may not be deleted, given the paths that go with it. */
  function DeleteProblem(byPath: map<Path, NewcEntry>, dead: set<Path>, path: Path): Option<EditError> {
    if path !in byPath then Some(AbsentInBase)
    else if byPath[path].links > 1 then Some(MultiplyLinked)
    else if exists c :: c in byPath && path + [SLASH] <= c && c !in dead then Some(NonemptyDirectory)
    else None
  }

  function FirstProblem(byPath: map<Path, NewcEntry>, dead: set<Path>, paths: seq<Path>): Option<EditError> {
    if paths == [] then None
    else if DeleteProblem(byPath, dead, paths[0]).Some? then DeleteProblem(byPath, dead, paths[0])
    else FirstProblem(byPath, dead, paths[1..])
  }

  function PathSet(paths: seq<Path>): set<Path> { set p | p in paths }

  function Deleted(base: NewcArchive, paths: seq<Path>): Result<NewcArchive, EditError> {
    var dead := PathSet(paths);
    if TRAILER in dead then Err(DeletesTrailer)
    else
      var problem := FirstProblem(ByPath(base.entries), dead, paths);
      if problem.Some? then Err(problem.value) else Ok(NewcArchive(Kept(base.entries, dead), base.tail))
  }

  /** `deleted_archive`: every path is checked against the whole delete set before any entry goes. */
  method DeletedArchive(base: NewcArchive, paths: seq<Path>) returns (r: Result<NewcArchive, EditError>)
    ensures r == Deleted(base, paths)
  {
    var dead, byPath := PathSet(paths), ByPath(base.entries);
    if TRAILER in dead {
      return Err(DeletesTrailer);
    }
    for k := 0 to |paths|
      invariant FirstProblem(byPath, dead, paths) == FirstProblem(byPath, dead, paths[k..])
    {
      assert paths[k..][0] == paths[k] && paths[k..][1..] == paths[k + 1..];
      var problem := DeleteProblem(byPath, dead, paths[k]);
      if problem.Some? {
        return Err(problem.value);
      }
    }
    r := Ok(NewcArchive(Kept(base.entries, dead), base.tail));
  }

  lemma {:induction false} NoProblemMeans(byPath: map<Path, NewcEntry>, dead: set<Path>, paths: seq<Path>)
    ensures FirstProblem(byPath, dead, paths).None? <==>
      forall p :: p in paths ==> DeleteProblem(byPath, dead, p).None?
  {
    if paths != [] {
      hide DeleteProblem;
      NoProblemMeans(byPath, dead, paths[1..]);
      assert paths == [paths[0]] + paths[1..];
    }
  }

  lemma KeptFirst(e: NewcEntry, rest: seq<NewcEntry>, dead: set<Path>)
    ensures Kept([e] + rest, dead) == (if e.name in dead then [] else [e]) + Kept(rest, dead)
  {
    assert ([e] + rest)[1..] == rest;
  }

  lemma {:induction false} KeptConcat(a: seq<NewcEntry>, b: seq<NewcEntry>, dead: set<Path>)
    ensures Kept(a + b, dead) == Kept(a, dead) + Kept(b, dead)
  {
    if a == [] {
      assert a + b == b;
    } else {
      hide Kept;
      KeptConcat(a[1..], b, dead);
      assert a == [a[0]] + a[1..] && a + b == [a[0]] + (a[1..] + b);
      KeptFirst(a[0], a[1..], dead);
      KeptFirst(a[0], a[1..] + b, dead);
    }
  }

  lemma {:induction false} KeptAll(a: seq<NewcEntry>, dead: set<Path>)
    requires forall i :: 0 <= i < |a| ==> a[i].name !in dead
    ensures Kept(a, dead) == a
  {
    if a != [] {
      KeptAll(a[1..], dead);
    }
  }

  /** Exactly the entries outside the delete set survive. */
  lemma {:induction false} KeptMembers(entries: seq<NewcEntry>, dead: set<Path>)
    ensures forall e :: e in Kept(entries, dead) <==> e in entries && e.name !in dead
    ensures Names(Kept(entries, dead)) == Names(entries) - dead
  {
    if entries != [] {
      var head, rest := [entries[0]], entries[1..];
      KeptMembers(rest, dead);
      assert entries == head + rest;
      NamesConcat(head, rest);
      NamesConcat(if entries[0].name in dead then [] else head, Kept(rest, dead));
      NamesOne(entries[0]);
    }
  }

  lemma NamesConcat(a: seq<NewcEntry>, b: seq<NewcEntry>)
    ensures Names(a + b) == Names(a) + Names(b)
  {
    assert forall i :: 0 <= i < |a| ==> (a + b)[i] == a[i];
    assert forall i :: 0 <= i < |b| ==> (a + b)[|a| + i] == b[i];
  }

  lemma NamesOne(e: NewcEntry)
    ensures Names([e]) == {e.name}
  {
    assert [e][0] == e;
  }

  lemma {:induction false} KeptDistinct(entries: seq<NewcEntry>, dead: set<Path>)
    requires DistinctNames(entries)
    ensures DistinctNames(Kept(entries, dead))
  {
    if entries != [] {
      var rest := entries[1..];
      KeptDistinct(rest, dead);
      KeptMembers(rest, dead);
      assert entries[0].name !in Names(rest);
    }
  }

  /** A directory with a surviving entry below it cannot be deleted. */
  lemma NoOrphan(byPath: map<Path, NewcEntry>, dead: set<Path>, name: Path, i: nat)
    requires name in byPath && name !in dead && i < |name| && name[i] == SLASH
    ensures DeleteProblem(byPath, dead, name[..i]).Some?
  {
    assert name[..i] + [SLASH] == name[..i + 1];
    assert name[..i] + [SLASH] <= name;
  }

  /** If the directory part `name[..i]` of a surviving entry was present, it still is. */
  lemma DeletionKeepsParents(base: NewcArchive, paths: seq<Path>, e: NewcEntry, i: nat)
    requires DistinctNames(base.entries) && Deleted(base, paths).Ok?
    requires e in Deleted(base, paths).value.entries
    requires i < |e.name| && e.name[i] == SLASH && e.name[..i] in Names(base.entries)
    ensures e.name[..i] in Names(Deleted(base, paths).value.entries)
  {
    hide DeleteProblem, Kept, ByPath, FirstProblem, DistinctNames;
    var dead := PathSet(paths);
    KeptMembers(base.entries, dead);
    NoProblemMeans(ByPath(base.entries), dead, paths);
    ByPathDistinct(base.entries);
    if e.name[..i] in dead {
      assert e.name in Names(base.entries);
      NoOrphan(ByPath(base.entries), dead, e.name, i);
    }
  }
}
