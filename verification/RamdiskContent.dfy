/** What a run of the ramdisk rewriter leaves in each entry, field by field, and exactly what it reports as changed. */
module RamdiskContent {
  import opened Bytes
  import opened Newc
  import opened NewcParse
  import opened NewcGuard
  import opened RamdiskEdit
  import opened RamdiskPipeline
  import opened RamdiskEffect

  /** What copying takes from the donor. */
  ghost predicate SameContent(w: NewcEntry, d: NewcEntry) {
    && w.data == d.data && w.mode == d.mode && w.uid == d.uid && w.gid == d.gid && w.links == d.links
    && w.mtime == d.mtime && w.rdevMajor == d.rdevMajor && w.rdevMinor == d.rdevMinor
  }

  /** What it leaves of an entry that the base has. */
  ghost predicate SamePlace(w: NewcEntry, b: NewcEntry) {
    && w.name == b.name && w.magic == b.magic && w.hexUpper == b.hexUpper && w.inode == b.inode
    && w.devMajor == b.devMajor && w.devMinor == b.devMinor
  }

  lemma CopiedEntryIs(e: NewcEntry, donors: map<Path, NewcEntry>, q: Request)
    requires ValidRequest(q) && e.name in PathSet(q.copy) && e.name in donors
    ensures SameContent(EditedEntry(e, donors, q), donors[e.name]) && SamePlace(EditedEntry(e, donors, q), e)
  {
    TargetsHoldData(q.replace);
    assert e.name in q.copy && e.name !in NewData(q.replace);
  }

  lemma {:induction false} NewDataIs(replacements: seq<Replacement>, r: Replacement)
    requires DistinctTargets(replacements) && r in replacements && r.source.Some?
    ensures r.path in NewData(replacements) && NewData(replacements)[r.path] == r.source.value
  {
    var first, rest := replacements[0], replacements[1..];
    assert forall i :: 0 <= i < |rest| ==> rest[i] == replacements[i + 1];
    if r != first {
      assert r in rest;
      NewDataIs(rest, r);
      var i :| 0 <= i < |rest| && rest[i] == r;
      assert r.path != first.path;
    } else {
      assert NewData(replacements) == NewData(rest)[r.path := r.source.value];
    }
  }

  lemma ReplacedEntryIs(e: NewcEntry, donors: map<Path, NewcEntry>, q: Request, r: Replacement)
    requires ValidRequest(q) && r in q.replace && r.source.Some? && e.name == r.path
    ensures EditedEntry(e, donors, q) == e.(data := r.source.value)
  {
    NewDataIs(q.replace, r);
    assert r.path in Targets(q.replace);
    assert e.name !in PathSet(q.copy);
  }

  lemma OtherEntryIs(e: NewcEntry, donors: map<Path, NewcEntry>, q: Request)
    requires e.name !in PathSet(q.copy) && e.name !in Targets(q.replace)
    ensures EditedEntry(e, donors, q) == e
  {
    TargetsHoldData(q.replace);
  }

  lemma SameName(entries: seq<NewcEntry>, a: NewcEntry, b: NewcEntry)
    requires DistinctNames(entries) && a in entries && b in entries && a.name == b.name
    ensures a == b
  {
  }

  /** A base entry that is not deleted, as it is in the result. */
  lemma KeptAs(base: NewcArchive, donors: map<Path, NewcEntry>, q: Request, b: NewcEntry, w: NewcEntry)
    requires WellFormedEntries(base.entries) && Keyed(donors) && ValidRequest(q) && TRAILER !in PathSet(q.delete)
    requires b in base.entries && w in OneStep(base, donors, q).entries && w.name == b.name
    ensures b.name !in PathSet(q.delete) && w == EditedEntry(b, donors, q)
  {
    hide OneStep, EditedEntry, Names, Added, MaxInode;
    var out := OneStep(base, donors, q).entries;
    OneStepIsWellFormed(base, donors, q);
    NameOf(out, w);
    NameOf(base.entries, b);
    AddedAreOthers(base, donors, q);
    var i :| 0 <= i < |base.entries| && base.entries[i] == b;
    Survivor(base, donors, q, i);
    EditedKeepsName(b, donors, q);
    SameName(out, w, EditedEntry(b, donors, q));
  }

  lemma NameOf(entries: seq<NewcEntry>, e: NewcEntry)
    requires e in entries
    ensures e.name in Names(entries)
  {
  }

  lemma AddedAreOthers(base: NewcArchive, donors: map<Path, NewcEntry>, q: Request)
    requires base.entries != [] && Keyed(donors)
    ensures Names(Added(base, donors, q)) !! Names(base.entries)
  {
    hide Names, MaxInode;
    AdditionsAre(Names(base.entries), MaxInode(base.entries) + 1, donors, q.copy);
  }

  /** The entry of a copied path, from the donor's entry `d`. */
  ghost predicate IsCopy(base: seq<NewcEntry>, d: NewcEntry, w: NewcEntry) {
    && w.name == d.name && SameContent(w, d)
    && (forall b :: b in base && b.name == w.name ==> SamePlace(w, b))
    && ((forall b :: b in base ==> b.name != w.name) ==>
          && w == d.(inode := w.inode)
          && forall b :: b in base ==> w.inode > b.inode)
  }

  lemma CopyIs(base: NewcArchive, donors: map<Path, NewcEntry>, q: Request, p: Path) returns (w: NewcEntry)
    requires WellFormedEntries(base.entries) && Keyed(donors) && ValidRequest(q) && TRAILER !in PathSet(q.delete)
    requires p in PathSet(q.copy) && p in donors
    ensures w in OneStep(base, donors, q).entries && IsCopy(base.entries, donors[p], w)
  {
    hide OneStep, EditedEntry, Names, Added, MaxInode, PathSet;
    if p in Names(base.entries) {
      var b := NamedEntry(base.entries, p);
      var i :| 0 <= i < |base.entries| && base.entries[i] == b;
      NotDeleted(q, p);
      Survivor(base, donors, q, i);
      w := EditedEntry(b, donors, q);
      CopiedEntryIs(b, donors, q);
      forall b' | b' in base.entries && b'.name == p ensures b' == b {
        SameName(base.entries, b', b);
      }
    } else {
      w := AddedCopy(base, donors, q, p);
      AddedAreIn(base, donors, q, w);
      forall b | b in base.entries ensures b.name != p {
        NameOf(base.entries, b);
      }
    }
  }

  lemma NotDeleted(q: Request, p: Path)
    requires ValidRequest(q) && p in PathSet(q.copy)
    ensures p !in PathSet(q.delete)
  {
  }

  lemma AddedCopy(base: NewcArchive, donors: map<Path, NewcEntry>, q: Request, p: Path) returns (w: NewcEntry)
    requires base.entries != [] && Keyed(donors) && p in PathSet(q.copy) && p in donors && p !in Names(base.entries)
    ensures w in Added(base, donors, q) && w.name == p && w == donors[p].(inode := w.inode)
    ensures forall b :: b in base.entries ==> w.inode > b.inode
  {
    hide Names, MaxInode, Additions;
    AdditionsAre(Names(base.entries), MaxInode(base.entries) + 1, donors, q.copy);
    w := NamedEntry(Added(base, donors, q), p);
    AddedInodesAreNew(base, donors, q);
  }

  /** The difference report, by its entries. */
  lemma ReportIs(a: NewcArchive, b: NewcArchive, p: Path)
    requires DistinctNames(a.entries) && DistinctNames(b.entries)
    ensures p in Compared(a, b).changedData <==>
      exists x, y :: x in a.entries && y in b.entries && x.name == y.name == p && x.data != y.data
    ensures p in Compared(a, b).changedMetadata <==>
      exists x, y :: x in a.entries && y in b.entries && x.name == y.name == p && x.(data := []) != y.(data := [])
    ensures p in Compared(a, b).added <==> (exists y :: y in b.entries && y.name == p) && forall x :: x in a.entries ==> x.name != p
    ensures p in Compared(a, b).removed <==> (exists x :: x in a.entries && x.name == p) && forall y :: y in b.entries ==> y.name != p
  {
    hide Names;
    ByPathDistinct(a.entries);
    ByPathDistinct(b.entries);
    NamesAre(a.entries, p);
    NamesAre(b.entries, p);
    forall x | x in a.entries ensures x.name in ByPath(a.entries) && ByPath(a.entries)[x.name] == x {
      FoundByName(a.entries, x);
    }
    forall y | y in b.entries ensures y.name in ByPath(b.entries) && ByPath(b.entries)[y.name] == y {
      FoundByName(b.entries, y);
    }
  }

  lemma NamesAre(entries: seq<NewcEntry>, p: Path)
    ensures p in Names(entries) <==> exists e :: e in entries && e.name == p
  {
    if p in Names(entries) {
      var e := NamedEntry(entries, p);
    }
  }

  // ---- Whole runs

  /** The entries of the donor payload, or none. */
  function DonorEntries(donorPayload: Option<seq<byte>>): seq<NewcEntry> {
    if donorPayload.None? || Parsed(donorPayload.value).Err? then [] else Parsed(donorPayload.value).value.entries
  }

  lemma DonorIs(donorPayload: Option<seq<byte>>, p: Path)
    ensures p in DonorsOf(donorPayload) ==>
      DonorsOf(donorPayload)[p] in DonorEntries(donorPayload) && DonorsOf(donorPayload)[p].name == p
    ensures forall d :: d in DonorEntries(donorPayload) && d.name == p ==> p in DonorsOf(donorPayload) && DonorsOf(donorPayload)[p] == d
  {
    hide Parsed;
    if donorPayload.Some? && Parsed(donorPayload.value).Ok? {
      var entries := DonorEntries(donorPayload);
      ParsedIsWellFormed(donorPayload.value);
      ByPathDistinct(entries);
      forall d | d in entries ensures d.name in ByPath(entries) && ByPath(entries)[d.name] == d {
        FoundByName(entries, d);
      }
      if p in Names(entries) {
        var d := NamedEntry(entries, p);
      }
    }
  }

  /** Whether the request gives a path of the base other bytes than it has. */
  ghost predicate NewBytes(base: seq<NewcEntry>, donor: seq<NewcEntry>, q: Request, p: Path) {
    || (p in q.copy && exists b, d :: b in base && d in donor && b.name == d.name == p && b.data != d.data)
    || exists b, r :: b in base && r in q.replace && b.name == r.path == p && Some(b.data) != r.source
  }

  /** Whether it gives one other metadata. */
  ghost predicate NewMetadata(base: seq<NewcEntry>, donor: seq<NewcEntry>, q: Request, p: Path) {
    p in q.copy && exists b, d :: b in base && d in donor && b.name == d.name == p && !SameMetadata(b, d)
  }

  ghost predicate SameMetadata(b: NewcEntry, d: NewcEntry) {
    && b.mode == d.mode && b.uid == d.uid && b.gid == d.gid && b.links == d.links && b.mtime == d.mtime
    && b.rdevMajor == d.rdevMajor && b.rdevMinor == d.rdevMinor
  }

  /** Every path that was to be copied has the donor's content. */
  lemma RunCopies(basePayload: seq<byte>, donorPayload: Option<seq<byte>>, q: Request, p: Path)
    requires Run(basePayload, donorPayload, q).Ok? && p in q.copy
    ensures var o := Run(basePayload, donorPayload, q).value;
      exists d, w :: d in DonorEntries(donorPayload) && w in o.rewritten.entries && d.name == p && IsCopy(o.base.entries, d, w)
  {
    hide Run, OneStep, Parsed, DonorsOf, Names, IsCopy, AllReplaceable, Deletable;
    var o, donors := Run(basePayload, donorPayload, q).value, DonorsOf(donorPayload);
    RunIsOneStep(basePayload, donorPayload, q);
    DonorsFit(donorPayload);
    DonorIs(donorPayload, p);
    assert p in PathSet(q.copy);
    var w := CopyIs(o.base, donors, q, p);
    CopyHasName(o.base.entries, donors[p], w);
  }

  lemma CopyHasName(base: seq<NewcEntry>, d: NewcEntry, w: NewcEntry)
    requires IsCopy(base, d, w)
    ensures w.name == d.name && SameContent(w, d)
  {
  }

  /** Every path that was to be replaced holds the bytes of its source and is otherwise as it was. */
  lemma RunReplaces(basePayload: seq<byte>, donorPayload: Option<seq<byte>>, q: Request, r: Replacement)
    requires Run(basePayload, donorPayload, q).Ok? && r in q.replace
    ensures r.source.Some?
    ensures var o := Run(basePayload, donorPayload, q).value;
      exists b :: b in o.base.entries && b.name == r.path && b.(data := r.source.value) in o.rewritten.entries
  {
    hide Run, OneStep, Parsed, DonorsOf, Names, EditedEntry, Deletable, IsRegular, ByPath;
    var o, donors := Run(basePayload, donorPayload, q).value, DonorsOf(donorPayload);
    RunIsOneStep(basePayload, donorPayload, q);
    assert Replaceable(ByPath(o.base.entries), r);
    ByPathDistinct(o.base.entries);
    var b := NamedEntry(o.base.entries, r.path);
    assert r.path in Targets(q.replace);
    var i :| 0 <= i < |o.base.entries| && o.base.entries[i] == b;
    Survivor(o.base, donors, q, i);
    ReplacedEntryIs(b, donors, q, r);
  }

  /** Every other entry that was not to be deleted is as it was. */
  lemma RunKeeps(basePayload: seq<byte>, donorPayload: Option<seq<byte>>, q: Request, b: NewcEntry)
    requires Run(basePayload, donorPayload, q).Ok? && b in Run(basePayload, donorPayload, q).value.base.entries
    requires b.name !in q.copy && b.name !in q.delete && forall r :: r in q.replace ==> r.path != b.name
    ensures b in Run(basePayload, donorPayload, q).value.rewritten.entries
  {
    hide Run, OneStep, Parsed, DonorsOf, Names, EditedEntry, Feasible;
    var o, donors := Run(basePayload, donorPayload, q).value, DonorsOf(donorPayload);
    RunIsOneStep(basePayload, donorPayload, q);
    var i :| 0 <= i < |o.base.entries| && o.base.entries[i] == b;
    assert b.name !in Targets(q.replace);
    Survivor(o.base, donors, q, i);
    OtherEntryIs(b, donors, q);
  }

  /** The report lists exactly the paths whose bytes, or whose metadata, the request really changes. */
  lemma RunReports(basePayload: seq<byte>, donorPayload: Option<seq<byte>>, q: Request, p: Path)
    requires Run(basePayload, donorPayload, q).Ok?
    ensures var o, donor := Run(basePayload, donorPayload, q).value, DonorEntries(donorPayload);
      && (p in o.report.changedData <==> NewBytes(o.base.entries, donor, q, p))
      && (p in o.report.changedMetadata <==> NewMetadata(o.base.entries, donor, q, p))
  {
    hide Run, OneStep, Parsed, DonorsOf, DonorEntries, Names, EditedEntry, Feasible, Compared, IsCopy, NewBytes, NewMetadata;
    var o, donors := Run(basePayload, donorPayload, q).value, DonorsOf(donorPayload);
    RunIsOneStep(basePayload, donorPayload, q);
    DonorsFit(donorPayload);
    FeasibleMeans(o.base.entries, donors, q);
    OneStepIsWellFormed(o.base, donors, q);
    if x, y :| x in o.base.entries && y in o.rewritten.entries && x.name == y.name == p {
      KeptAs(o.base, donors, q, x, y);
      ChangeOf(donorPayload, o.base.entries, q, x);
      ReportOf(o.base, o.rewritten, x, y);
    } else {
      ReportIs(o.base, o.rewritten, p);
      NoChange(basePayload, donorPayload, q, p);
    }
  }

  /** The report on a path of both archives. */
  lemma ReportOf(a: NewcArchive, b: NewcArchive, x: NewcEntry, y: NewcEntry)
    requires DistinctNames(a.entries) && DistinctNames(b.entries) && x in a.entries && y in b.entries && x.name == y.name
    ensures x.name in Compared(a, b).changedData <==> x.data != y.data
    ensures x.name in Compared(a, b).changedMetadata <==> x.(data := []) != y.(data := [])
  {
    hide Compared;
    ReportIs(a, b, x.name);
    OnlyOne(a.entries, x);
    OnlyOne(b.entries, y);
  }

  lemma OnlyOne(entries: seq<NewcEntry>, x: NewcEntry)
    requires DistinctNames(entries) && x in entries
    ensures forall y :: y in entries && y.name == x.name ==> y == x
  {
  }

  lemma FeasibleMeans(base: seq<NewcEntry>, donors: map<Path, NewcEntry>, q: Request)
    requires Feasible(base, donors, q)
    ensures PathSet(q.copy) <= donors.Keys && TRAILER !in PathSet(q.delete)
    ensures forall r :: r in q.replace ==> r.source.Some?
  {
    hide IsRegular, ByPath, Deletable;
    assert forall r :: r in q.replace ==> Replaceable(ByPath(base), r);
  }

  /** What the request changes of one entry of the base. */
  lemma ChangeOf(donorPayload: Option<seq<byte>>, base: seq<NewcEntry>, q: Request, x: NewcEntry)
    requires DistinctNames(base) && x in base && ValidRequest(q) && PathSet(q.copy) <= DonorsOf(donorPayload).Keys
    requires forall r :: r in q.replace ==> r.source.Some?
    ensures var y := EditedEntry(x, DonorsOf(donorPayload), q);
      && (NewBytes(base, DonorEntries(donorPayload), q, x.name) <==> x.data != y.data)
      && (NewMetadata(base, DonorEntries(donorPayload), q, x.name) <==> x.(data := []) != y.(data := []))
  {
    hide DonorsOf, DonorEntries, EditedEntry, DistinctNames;
    var donors, donor := DonorsOf(donorPayload), DonorEntries(donorPayload);
    OnlyOne(base, x);
    DonorIs(donorPayload, x.name);
    if x.name in PathSet(q.copy) {
      CopiedEntryIs(x, donors, q);
      assert forall r :: r in q.replace ==> r.path in Targets(q.replace) && r.path != x.name;
    } else if x.name in Targets(q.replace) {
      var k :| 0 <= k < |q.replace| && q.replace[k].path == x.name;
      ReplacedEntryIs(x, donors, q, q.replace[k]);
      assert forall r :: r in q.replace && r.path == x.name ==> r == q.replace[k];
    } else {
      OtherEntryIs(x, donors, q);
      assert forall r :: r in q.replace ==> r.path in Targets(q.replace);
    }
  }

  /** A path that is not both in the base and in the result is neither copied over nor replaced there. */
  lemma NoChange(basePayload: seq<byte>, donorPayload: Option<seq<byte>>, q: Request, p: Path)
    requires Run(basePayload, donorPayload, q).Ok?
    requires var o := Run(basePayload, donorPayload, q).value;
      !exists x, y :: x in o.base.entries && y in o.rewritten.entries && x.name == y.name == p
    ensures var o, donor := Run(basePayload, donorPayload, q).value, DonorEntries(donorPayload);
      !NewBytes(o.base.entries, donor, q, p) && !NewMetadata(o.base.entries, donor, q, p)
  {
    hide Run, DonorEntries, IsCopy;
    var o := Run(basePayload, donorPayload, q).value;
    if p in q.copy {
      RunCopies(basePayload, donorPayload, q, p);
      var d, w :| d in DonorEntries(donorPayload) && w in o.rewritten.entries && d.name == p && IsCopy(o.base.entries, d, w);
      CopyHasName(o.base.entries, d, w);
    }
    forall r | r in q.replace ensures r.path != p {
      RunReplaces(basePayload, donorPayload, q, r);
    }
  }

  // ---- Order

  /** The paths of a list outside a set, in order. */
  function Remaining(paths: seq<Path>, gone: set<Path>): seq<Path> {
    if paths == [] then []
    else (if paths[0] in gone then [] else [paths[0]]) + Remaining(paths[1..], gone)
  }

  lemma PathsConcat(a: seq<NewcEntry>, b: seq<NewcEntry>)
    ensures PathsInOrder(a + b) == PathsInOrder(a) + PathsInOrder(b)
  {
  }

  lemma {:induction false} KeptPaths(entries: seq<NewcEntry>, dead: set<Path>)
    ensures PathsInOrder(Kept(entries, dead)) == Remaining(PathsInOrder(entries), dead)
  {
    if entries != [] {
      KeptPaths(entries[1..], dead);
      assert PathsInOrder(entries)[1..] == PathsInOrder(entries[1..]);
      PathsConcat(if entries[0].name in dead then [] else [entries[0]], Kept(entries[1..], dead));
    }
  }

  lemma {:induction false} AddedPaths(names: set<Path>, inode: int, donors: map<Path, NewcEntry>, paths: seq<Path>)
    requires Keyed(donors) && DistinctPaths(paths) && forall p :: p in paths ==> p in donors
    ensures PathsInOrder(Additions(names, inode, donors, paths)) == Remaining(paths, names)
    decreases |paths|
  {
    if paths != [] {
      var rest := paths[1..];
      assert paths == [paths[0]] + rest;
      if paths[0] in names {
        AddedPaths(names, inode, donors, rest);
      } else {
        AddedPaths(names + {paths[0]}, inode + 1, donors, rest);
        PathsConcat([donors[paths[0]].(inode := inode)], Additions(names + {paths[0]}, inode + 1, donors, rest));
        RemainingSame(rest, names, paths[0]);
      }
    }
  }

  lemma {:induction false} RemainingSame(paths: seq<Path>, gone: set<Path>, p: Path)
    requires p !in paths
    ensures Remaining(paths, gone + {p}) == Remaining(paths, gone)
  {
    if paths != [] {
      RemainingSame(paths[1..], gone, p);
    }
  }

  lemma PathsSlice(entries: seq<NewcEntry>, k: nat)
    requires k <= |entries|
    ensures PathsInOrder(entries[..k]) == PathsInOrder(entries)[..k] && PathsInOrder(entries[k..]) == PathsInOrder(entries)[k..]
  {
  }

  lemma OneStepOrder(base: NewcArchive, donors: map<Path, NewcEntry>, q: Request)
    requires WellFormedEntries(base.entries) && Keyed(donors) && ValidRequest(q) && PathSet(q.copy) <= donors.Keys
    ensures var before := PathsInOrder(base.entries);
      PathsInOrder(OneStep(base, donors, q).entries)
        == Remaining(before[..|before| - 1], PathSet(q.delete)) + Remaining(q.copy, Names(base.entries)) + [TRAILER]
  {
    hide Names, EditedEntries, Kept, Additions, MaxInode, Remaining, PathsInOrder;
    var n, edited := |base.entries|, EditedEntries(base.entries, donors, q);
    var kept, added := Kept(edited[..n - 1], PathSet(q.delete)), Added(base, donors, q);
    assert forall p :: p in q.copy ==> p in PathSet(q.copy);
    KeptPaths(edited[..n - 1], PathSet(q.delete));
    AddedPaths(Names(base.entries), MaxInode(base.entries) + 1, donors, q.copy);
    PathsConcat(kept, added);
    PathsConcat(kept + added, edited[n - 1..]);
    EditedPaths(base.entries, donors, q);
    PathsSlice(edited, n - 1);
    LastIsTrailer(base, donors, q);
    PathsOfOne(edited[n - 1..]);
  }

  lemma PathsOfOne(entries: seq<NewcEntry>)
    requires |entries| == 1
    ensures PathsInOrder(entries) == [entries[0].name]
  {
  }

  /** The survivors in the order of the base, then the new paths in argument order, then the trailer. */
  lemma RunOrder(basePayload: seq<byte>, donorPayload: Option<seq<byte>>, q: Request)
    requires Run(basePayload, donorPayload, q).Ok?
    ensures var o := Run(basePayload, donorPayload, q).value;
      && o.base.entries != []
      && var before := PathsInOrder(o.base.entries);
         PathsInOrder(o.rewritten.entries)
           == Remaining(before[..|before| - 1], PathSet(q.delete)) + Remaining(q.copy, Names(o.base.entries)) + [TRAILER]
  {
    hide Run, Parsed, DonorsOf, Names, OneStep, AllReplaceable, Deletable, Remaining, PathsInOrder;
    RunIsOneStep(basePayload, donorPayload, q);
    DonorsFit(donorPayload);
    OneStepOrder(Run(basePayload, donorPayload, q).value.base, DonorsOf(donorPayload), q);
  }

  lemma EditedPaths(entries: seq<NewcEntry>, donors: map<Path, NewcEntry>, q: Request)
    ensures PathsInOrder(EditedEntries(entries, donors, q)) == PathsInOrder(entries)
    ensures forall i :: 0 <= i < |entries| ==> EditedEntries(entries, donors, q)[i].name == entries[i].name
  {
    forall i | 0 <= i < |entries| ensures EditedEntries(entries, donors, q)[i].name == entries[i].name {
      EditedKeepsName(entries[i], donors, q);
    }
  }
}
