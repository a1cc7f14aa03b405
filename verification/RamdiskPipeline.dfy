/** `main` of `tools/rewrite-newc-ramdisk.py` on decompressed archives: checks, edits, report and output. */
module RamdiskPipeline {
  import opened Bytes
  import opened Hex
  import opened Newc
  import opened NewcParse
  import opened NewcGuard
  import opened RamdiskEdit

  /** The tuple of `compared_archives`, with sets for its sorted path lists. */
  datatype Report = Report(
    added: set<Path>, removed: set<Path>, changedData: set<Path>, changedMetadata: set<Path>,
    sameOrder: bool, sameTail: bool)

  function PathsInOrder(entries: seq<NewcEntry>): (s: seq<Path>)
    ensures |s| == |entries| && forall i :: 0 <= i < |s| ==> s[i] == entries[i].name
  {
    seq(|entries|, i requires 0 <= i < |entries| => entries[i].name)
  }

  /** An entry without its data, `dataclasses.replace(entry, data=b"")`. */
  function Metadata(e: NewcEntry): NewcEntry { e.(data := []) }

  /** `compared_archives`. */
  function Compared(base: NewcArchive, rewritten: NewcArchive): Report {
    var old', new' := ByPath(base.entries), ByPath(rewritten.entries);
    var common := old'.Keys * new'.Keys;
    Report(new'.Keys - old'.Keys, old'.Keys - new'.Keys,
           (set p | p in common && old'[p].data != new'[p].data),
           (set p | p in common && Metadata(old'[p]) != Metadata(new'[p])),
           PathsInOrder(base.entries) == PathsInOrder(rewritten.entries), base.tail == rewritten.tail)
  }

  predicate NoDifference(r: Report) {
    r == Report({}, {}, {}, {}, true, true)
  }

  /** The report shows no difference exactly when the archives are equal. */
  lemma NoDifferenceIff(base: NewcArchive, rewritten: NewcArchive)
    requires DistinctNames(base.entries) && DistinctNames(rewritten.entries)
    ensures NoDifference(Compared(base, rewritten)) <==> base == rewritten
  {
    var a, b := base.entries, rewritten.entries;
    ByPathDistinct(a);
    ByPathDistinct(b);
    var r := Compared(base, rewritten);
    if NoDifference(r) {
      assert PathsInOrder(a) == PathsInOrder(b);
      forall i | 0 <= i < |a| ensures a[i] == b[i] {
        var p := PathsInOrder(a)[i];
        assert p == PathsInOrder(b)[i] && ByPath(a)[p] == a[i] && ByPath(b)[p] == b[i];
        assert p !in r.changedData && p !in r.changedMetadata;
        assert a[i] == Metadata(a[i]).(data := a[i].data);
      }
    }
  }

  datatype Request = Request(copy: seq<Path>, delete: seq<Path>, replace: seq<Replacement>)

  datatype Failure =
    | BadArguments | MissingDonor
    | BaseUnreadable(base: ParseError) | BaseNotIdentical
    | DonorUnreadable(donor: ParseError) | DonorNotIdentical
    | Refused(edit: EditError)

  datatype Outcome = Outcome(base: NewcArchive, rewritten: NewcArchive, report: Report, output: seq<byte>)

  function Targets(replacements: seq<Replacement>): set<Path> {
    set i | 0 <= i < |replacements| :: replacements[i].path
  }

  /** No path twice in a list, none in two lists, and something to do. */
  predicate ValidRequest(q: Request) {
    && DistinctPaths(q.copy) && DistinctPaths(q.delete) && DistinctTargets(q.replace)
    && PathSet(q.copy) !! PathSet(q.delete) !! Targets(q.replace)
    && (q.copy != [] || q.delete != [] || q.replace != [])
  }

  function TargetPaths(replacements: seq<Replacement>): (s: seq<Path>)
    ensures |s| == |replacements| && forall i :: 0 <= i < |s| ==> s[i] == replacements[i].path
  {
    seq(|replacements|, i requires 0 <= i < |replacements| => replacements[i].path)
  }

  lemma TargetPathsAre(replacements: seq<Replacement>)
    ensures DistinctTargets(replacements) <==> DistinctPaths(TargetPaths(replacements))
    ensures Targets(replacements) == PathSet(TargetPaths(replacements))
  {
    var s := TargetPaths(replacements);
    forall i | 0 <= i < |s| ensures s[i] in Targets(replacements) && replacements[i].path in PathSet(s) {
      assert replacements[i].path == s[i];
    }
    if DistinctPaths(s) {
      forall i, j | 0 <= i < j < |replacements| ensures replacements[i].path != replacements[j].path {
        assert s[i] != s[j];
      }
    }
  }

  /** All paths of a request, in argument order. */
  function AllPaths(q: Request): seq<Path> {
    q.copy + q.delete + TargetPaths(q.replace)
  }

  /** A request is valid exactly when it names a path, and none twice. */
  lemma ValidRequestIff(q: Request)
    ensures ValidRequest(q) <==> AllPaths(q) != [] && DistinctPaths(AllPaths(q))
  {
    TargetPathsAre(q.replace);
    DistinctConcat(q.copy, q.delete);
    DistinctConcat(q.copy + q.delete, TargetPaths(q.replace));
    PathSetConcat(q.copy, q.delete);
  }

  lemma PathSetConcat(a: seq<Path>, b: seq<Path>)
    ensures PathSet(a + b) == PathSet(a) + PathSet(b)
  {
  }

  lemma DistinctConcat(a: seq<Path>, b: seq<Path>)
    ensures DistinctPaths(a + b) <==> DistinctPaths(a) && DistinctPaths(b) && PathSet(a) !! PathSet(b)
  {
    var all := a + b;
    assert forall i :: 0 <= i < |a| ==> all[i] == a[i];
    assert forall i :: 0 <= i < |b| ==> all[|a| + i] == b[i];
    if DistinctPaths(a) && DistinctPaths(b) && PathSet(a) !! PathSet(b) {
      forall i, j | 0 <= i < j < |all| ensures all[i] != all[j] {
        if i < |a| <= j {
          assert all[i] in PathSet(a) && all[j] in PathSet(b);
        }
      }
    }
  }

  /** Parse, and refuse what does not print back byte for byte. */
  function Guarded(payload: seq<byte>, unreadable: ParseError -> Failure, notIdentical: Failure): Result<NewcArchive, Failure> {
    var a := Parsed(payload);
    if a.Err? then Err(unreadable(a.error))
    else if Serialized(a.value) != payload then Err(notIdentical)
    else Ok(a.value)
  }

  function Lift<T>(r: Result<T, EditError>): Result<T, Failure> {
    if r.Ok? then Ok(r.value) else Err(Refused(r.error))
  }

  /** Copy, then replace, then delete. */
  function Edited(base: NewcArchive, donor: Option<NewcArchive>, q: Request): Result<NewcArchive, EditError>
    requires q.copy != [] ==> donor.Some?
  {
    var copied := if q.copy == [] then Ok(base) else Copied(base, donor.value, q.copy);
    if copied.Err? then copied else
    var replaced := ReplaceSteps(copied.value.entries, q.replace);
    if replaced.Err? then Err(replaced.error) else
    Deleted(NewcArchive(replaced.value, base.tail), q.delete)
  }

  /** The run of `main` between decompressing the inputs and compressing the output. */
  function Run(basePayload: seq<byte>, donorPayload: Option<seq<byte>>, q: Request): Result<Outcome, Failure> {
    if !ValidRequest(q) then Err(BadArguments)
    else if q.copy != [] && donorPayload.None? then Err(MissingDonor) else
    var base := Guarded(basePayload, e => BaseUnreadable(e), BaseNotIdentical);
    if base.Err? then Err(base.error) else
    var donor := if donorPayload.None? then Ok(None) else
      var d := Guarded(donorPayload.value, e => DonorUnreadable(e), DonorNotIdentical);
      if d.Ok? then Ok(Some(d.value)) else Err(d.error);
    if donor.Err? then Err(donor.error) else
    var rewritten := Lift(Edited(base.value, donor.value, q));
    if rewritten.Err? then Err(rewritten.error) else
    Ok(Outcome(base.value, rewritten.value, Compared(base.value, rewritten.value), Serialized(rewritten.value)))
  }

  // ---- What the edits add up to

  /** The donor entries that the copy list can name. */
  function Donors(donor: Option<NewcArchive>): map<Path, NewcEntry> {
    if donor.None? then map[] else ByPath(donor.value.entries)
  }

  /** What becomes of one base entry that survives. */
  function EditedEntry(e: NewcEntry, donors: map<Path, NewcEntry>, q: Request): (r: NewcEntry)
    ensures r.name == e.name && r.inode == e.inode
  {
    Substitute(OverlayIfCopied(e, donors, q.copy), NewData(q.replace))
  }

  function EditedEntries(entries: seq<NewcEntry>, donors: map<Path, NewcEntry>, q: Request): (r: seq<NewcEntry>)
    ensures |r| == |entries|
    ensures forall i :: 0 <= i < |r| ==> r[i] == EditedEntry(entries[i], donors, q)
  {
    seq(|entries|, i requires 0 <= i < |entries| => EditedEntry(entries[i], donors, q))
  }

  function Added(base: NewcArchive, donors: map<Path, NewcEntry>, q: Request): seq<NewcEntry>
    requires base.entries != []
  {
    Additions(Names(base.entries), MaxInode(base.entries) + 1, donors, q.copy)
  }

  /** The whole edit in one step: surviving entries edited in place, then the additions, then the trailer. */
  function OneStep(base: NewcArchive, donors: map<Path, NewcEntry>, q: Request): NewcArchive
    requires base.entries != []
  {
    var n := |base.entries|;
    var edited := EditedEntries(base.entries, donors, q);
    NewcArchive(Kept(edited[..n - 1], PathSet(q.delete)) + Added(base, donors, q) + edited[n - 1..], base.tail)
  }

  /** Additions carry names of the list that are new, and consecutive inodes. */
  lemma {:induction false} AdditionsAre(names: set<Path>, inode: int, donors: map<Path, NewcEntry>, paths: seq<Path>)
    requires Keyed(donors)
    ensures var a := Additions(names, inode, donors, paths);
      && DistinctNames(a)
      && (forall p :: p in Names(a) <==> p in paths && p in donors && p !in names)
      && (forall i :: 0 <= i < |a| ==>
            a[i].name in donors && a[i] == donors[a[i].name].(inode := inode + i))
    decreases |paths|
  {
    if paths != [] {
      var path, rest := paths[0], paths[1..];
      assert paths == [path] + rest;
      if path in names || path !in donors {
        AdditionsAre(names, inode, donors, rest);
      } else {
        AdditionsAre(names + {path}, inode + 1, donors, rest);
        var e, more := donors[path].(inode := inode), Additions(names + {path}, inode + 1, donors, rest);
        NamesConcat([e], more);
        NamesOne(e);
        DistinctCons(e, more);
        assert forall i :: 1 <= i < |more| + 1 ==> ([e] + more)[i] == more[i - 1];
      }
    }
  }

  lemma DistinctCons(e: NewcEntry, more: seq<NewcEntry>)
    requires DistinctNames(more) && e.name !in Names(more)
    ensures DistinctNames([e] + more)
  {
    var all := [e] + more;
    assert forall i :: 1 <= i < |all| ==> all[i] == more[i - 1] && all[i].name in Names(more);
  }

  lemma TrailerIndex(entries: seq<NewcEntry>)
    requires WellFormedEntries(entries)
    ensures TRAILER in IndexByPath(entries) && IndexByPath(entries)[TRAILER] == |entries| - 1
  {
    IndexByPathSound(entries);
    assert entries[|entries| - 1].name in Names(entries);
  }

  lemma SubstituteConcat(a: seq<NewcEntry>, b: seq<NewcEntry>, data: map<Path, seq<byte>>)
    ensures SubstituteAll(a + b, data) == SubstituteAll(a, data) + SubstituteAll(b, data)
  {
  }

  lemma SubstituteNone(a: seq<NewcEntry>, data: map<Path, seq<byte>>)
    requires Names(a) !! data.Keys
    ensures SubstituteAll(a, data) == a
  {
    forall i | 0 <= i < |a| ensures Substitute(a[i], data) == a[i] {
      assert a[i].name in Names(a);
    }
  }

  lemma TargetsHoldData(replacements: seq<Replacement>)
    ensures NewData(replacements).Keys <= Targets(replacements)
  {
  }

  lemma AddedAreNotReplaced(base: NewcArchive, donors: map<Path, NewcEntry>, q: Request)
    requires base.entries != [] && Keyed(donors) && ValidRequest(q)
    ensures Names(Added(base, donors, q)) !! NewData(q.replace).Keys
  {
    hide Names, MaxInode, Additions;
    AdditionsAre(Names(base.entries), MaxInode(base.entries) + 1, donors, q.copy);
    TargetsHoldData(q.replace);
  }

  /** Copying and replacing, before anything is deleted. */
  lemma ReplacedForm(base: NewcArchive, donors: map<Path, NewcEntry>, q: Request)
    requires base.entries != [] && Keyed(donors) && ValidRequest(q)
    ensures var n, edited := |base.entries|, EditedEntries(base.entries, donors, q);
      SubstituteAll(CopiedForm(base.entries, MaxInode(base.entries) + 1, donors, q.copy), NewData(q.replace))
        == edited[..n - 1] + Added(base, donors, q) + edited[n - 1..]
  {
    hide Overlay, OverlayIfCopied, Substitute, Names, MaxInode;
    var n, data, overlaid := |base.entries|, NewData(q.replace), OverlayAll(base.entries, donors, q.copy);
    var added := Added(base, donors, q);
    AddedAreNotReplaced(base, donors, q);
    SubstituteNone(added, data);
    SubstituteConcat(overlaid[..n - 1], added, data);
    SubstituteConcat(overlaid[..n - 1] + added, overlaid[n - 1..], data);
    assert SubstituteAll(overlaid, data) == EditedEntries(base.entries, donors, q);
    SubstituteSlice(overlaid, n - 1, data);
  }

  lemma SubstituteSlice(a: seq<NewcEntry>, k: nat, data: map<Path, seq<byte>>)
    requires k <= |a|
    ensures SubstituteAll(a[..k], data) == SubstituteAll(a, data)[..k]
    ensures SubstituteAll(a[k..], data) == SubstituteAll(a, data)[k..]
  {
    hide Substitute;
  }

  lemma CopiedIs(base: NewcArchive, donor: NewcArchive, paths: seq<Path>)
    requires WellFormedEntries(base.entries) && DistinctPaths(paths)
    ensures var r := Copied(base, donor, paths);
      && (r.Ok? <==> PathSet(paths) <= ByPath(donor.entries).Keys)
      && (r.Ok? ==> r.value == NewcArchive(
            CopiedForm(base.entries, MaxInode(base.entries) + 1, ByPath(donor.entries), paths), base.tail))
  {
    hide MaxInode, CopiedForm;
    TrailerIndex(base.entries);
    ByPathKeyed(donor.entries);
    CopyStepsForm(base.entries, MaxInode(base.entries) + 1, ByPath(donor.entries), paths);
  }

  lemma DonorsKeyed(donor: Option<NewcArchive>)
    ensures Keyed(Donors(donor))
  {
    if donor.Some? {
      ByPathKeyed(donor.value.entries);
    }
  }

  lemma OverlaidNames(entries: seq<NewcEntry>, donors: map<Path, NewcEntry>, paths: seq<Path>)
    ensures Names(OverlayAll(entries, donors, paths)) == Names(entries)
    ensures DistinctNames(entries) ==> DistinctNames(OverlayAll(entries, donors, paths))
  {
    hide Overlay;
    var o := OverlayAll(entries, donors, paths);
    assert forall i :: 0 <= i < |entries| ==> o[i].name == entries[i].name;
    assert forall i :: 0 <= i < |entries| ==> o[i].name in Names(entries) && entries[i].name in Names(o);
  }

  lemma DistinctCopied(entries: seq<NewcEntry>, inode: int, donors: map<Path, NewcEntry>, paths: seq<Path>)
    requires WellFormedEntries(entries) && Keyed(donors)
    ensures WellFormedEntries(CopiedForm(entries, inode, donors, paths))
    ensures Names(CopiedForm(entries, inode, donors, paths))
         == Names(entries) + (set p | p in paths && p in donors)
  {
    hide Overlay;
    var n, o, added := |entries|, OverlayAll(entries, donors, paths), Additions(Names(entries), inode, donors, paths);
    AdditionsAre(Names(entries), inode, donors, paths);
    OverlaidNames(entries, donors, paths);
    assert o == o[..n - 1] + o[n - 1..];
    DistinctMiddle(o, n - 1, added);
    NamesConcat(o[..n - 1], added);
    NamesConcat(o[..n - 1] + added, o[n - 1..]);
    NamesConcat(o[..n - 1], o[n - 1..]);
  }

  lemma DistinctMiddle(o: seq<NewcEntry>, k: nat, added: seq<NewcEntry>)
    requires k <= |o| && DistinctNames(o) && DistinctNames(added) && Names(o) !! Names(added)
    ensures DistinctNames(o[..k] + added + o[k..])
  {
    var all, m := o[..k] + added + o[k..], |added|;
    forall i, j | 0 <= i < j < |all| ensures all[i].name != all[j].name {
      assert all[i] == if i < k then o[i] else if i < k + m then added[i - k] else o[i - m];
      assert all[j] == if j < k then o[j] else if j < k + m then added[j - k] else o[j - m];
      if i < k || i >= k + m {
        assert all[i].name in Names(o);
      } else {
        assert all[i].name in Names(added);
      }
      if j < k || j >= k + m {
        assert all[j].name in Names(o);
      } else {
        assert all[j].name in Names(added);
      }
    }
  }

  /** The copying phase, whether or not there is anything to copy. */
  lemma CopyPhase(base: NewcArchive, donor: Option<NewcArchive>, q: Request)
    requires WellFormedEntries(base.entries) && ValidRequest(q) && (q.copy != [] ==> donor.Some?)
    ensures var inode, donors := MaxInode(base.entries) + 1, Donors(donor);
      var copied := if q.copy == [] then Ok(base) else Copied(base, donor.value, q.copy);
      && (copied.Ok? <==> PathSet(q.copy) <= donors.Keys)
      && (copied.Ok? ==> copied.value == NewcArchive(CopiedForm(base.entries, inode, donors, q.copy), base.tail))
  {
    hide Copied, CopiedForm, MaxInode;
    if q.copy == [] {
      CopiedNothing(base.entries, MaxInode(base.entries) + 1, Donors(donor));
    } else {
      CopiedIs(base, donor.value, q.copy);
    }
  }

  /** The deletion phase drops nothing but entries of the base. */
  lemma DeletePhase(base: NewcArchive, donors: map<Path, NewcEntry>, q: Request)
    requires WellFormedEntries(base.entries) && ValidRequest(q) && Keyed(donors) && TRAILER !in PathSet(q.delete)
    ensures var n, edited := |base.entries|, EditedEntries(base.entries, donors, q);
      Kept(edited[..n - 1] + Added(base, donors, q) + edited[n - 1..], PathSet(q.delete))
        == OneStep(base, donors, q).entries
  {
    hide Names, MaxInode, EditedEntries, Additions, Kept;
    var n, dead, edited, added := |base.entries|, PathSet(q.delete), EditedEntries(base.entries, donors, q), Added(base, donors, q);
    AdditionsAre(Names(base.entries), MaxInode(base.entries) + 1, donors, q.copy);
    KeptConcat(edited[..n - 1], added, dead);
    KeptConcat(edited[..n - 1] + added, edited[n - 1..], dead);
    KeptOutside(added, dead);
    LastIsTrailer(base, donors, q);
    KeptAll(edited[n - 1..], dead);
  }

  /** A path that may be deleted: a base entry with one link whose children all go too, those copied in included. */
  predicate Deletable(base: seq<NewcEntry>, q: Request, p: Path) {
    && p in ByPath(base) && ByPath(base)[p].links <= 1
    && !exists c :: c in Names(base) + PathSet(q.copy) && p + [SLASH] <= c && c !in PathSet(q.delete)
  }

  /** What a caller can check beforehand: the edits go through. */
  predicate Feasible(base: seq<NewcEntry>, donors: map<Path, NewcEntry>, q: Request) {
    && PathSet(q.copy) <= donors.Keys
    && AllReplaceable(ByPath(base), q.replace)
    && TRAILER !in PathSet(q.delete) && forall p :: p in PathSet(q.delete) ==> Deletable(base, q, p)
  }

  lemma FoundByName(entries: seq<NewcEntry>, e: NewcEntry)
    requires DistinctNames(entries) && e in entries
    ensures e.name in ByPath(entries) && ByPath(entries)[e.name] == e
  {
    ByPathDistinct(entries);
  }

  /** An entry whose path is not in the copy list is in the copied archive as it was. */
  lemma NotOverlaid(entries: seq<NewcEntry>, inode: int, donors: map<Path, NewcEntry>, paths: seq<Path>, e: NewcEntry)
    requires e in entries && e.name !in PathSet(paths)
    ensures e in CopiedForm(entries, inode, donors, paths)
  {
    hide Overlay, Additions, Names;
    var i :| 0 <= i < |entries| && entries[i] == e;
    var o := OverlayAll(entries, donors, paths);
    assert o[i] == e;
    MiddleMember(o, |entries| - 1, Additions(Names(entries), inode, donors, paths), i);
  }

  lemma NamedEntry(entries: seq<NewcEntry>, p: Path) returns (e: NewcEntry)
    requires p in Names(entries)
    ensures e in entries && e.name == p
  {
    var i :| 0 <= i < |entries| && entries[i].name == p;
    e := entries[i];
  }

  /** Copying leaves the entries of all other paths as they were. */
  lemma NotCopied(base: NewcArchive, donors: map<Path, NewcEntry>, q: Request, p: Path)
    requires WellFormedEntries(base.entries) && Keyed(donors) && p !in PathSet(q.copy)
    ensures var copied := ByPath(CopiedForm(base.entries, MaxInode(base.entries) + 1, donors, q.copy));
      && (p in copied <==> p in ByPath(base.entries))
      && (p in copied ==> copied[p] == ByPath(base.entries)[p])
  {
    hide ByPath, MaxInode, CopiedForm, Names;
    var entries, inode := base.entries, MaxInode(base.entries) + 1;
    DistinctCopied(entries, inode, donors, q.copy);
    ByPathDistinct(entries);
    ByPathDistinct(CopiedForm(entries, inode, donors, q.copy));
    if p in Names(entries) {
      var e := NamedEntry(entries, p);
      NotOverlaid(entries, inode, donors, q.copy, e);
      FoundByName(entries, e);
      FoundByName(CopiedForm(entries, inode, donors, q.copy), e);
    }
  }

  lemma MiddleMember<T>(o: seq<T>, k: nat, added: seq<T>, i: nat)
    requires k <= |o| && i < |o|
    ensures o[i] in o[..k] + added + o[k..]
  {
    assert o == o[..k] + o[k..];
  }

  lemma ReplaceableInBase(base: NewcArchive, donors: map<Path, NewcEntry>, q: Request)
    requires WellFormedEntries(base.entries) && Keyed(donors) && ValidRequest(q)
    ensures AllReplaceable(ByPath(CopiedForm(base.entries, MaxInode(base.entries) + 1, donors, q.copy)), q.replace)
       <==> AllReplaceable(ByPath(base.entries), q.replace)
  {
    hide ByPath, CopiedForm, MaxInode, IsRegular;
    var copied := ByPath(CopiedForm(base.entries, MaxInode(base.entries) + 1, donors, q.copy));
    forall r | r in q.replace ensures Replaceable(copied, r) <==> Replaceable(ByPath(base.entries), r) {
      assert r.path in Targets(q.replace);
      NotCopied(base, donors, q, r.path);
    }
  }

  /** Whether a path may be deleted, decided on the base alone. */
  lemma DeletableInBase(base: NewcArchive, donors: map<Path, NewcEntry>, q: Request, p: Path)
    requires WellFormedEntries(base.entries) && Keyed(donors) && ValidRequest(q)
    requires PathSet(q.copy) <= donors.Keys && p in PathSet(q.delete)
    ensures var copied := CopiedForm(base.entries, MaxInode(base.entries) + 1, donors, q.copy);
      var replaced := ByPath(SubstituteAll(copied, NewData(q.replace)));
      DeleteProblem(replaced, PathSet(q.delete), p).None? <==> Deletable(base.entries, q, p)
  {
    hide ByPath, CopiedForm, MaxInode, Substitute, Names;
    var copied, data := CopiedForm(base.entries, MaxInode(base.entries) + 1, donors, q.copy), NewData(q.replace);
    var replaced := SubstituteAll(copied, data);
    DistinctCopied(base.entries, MaxInode(base.entries) + 1, donors, q.copy);
    SubstitutedNames(copied, data);
    ByPathDistinct(base.entries);
    ByPathDistinct(replaced);
    NotCopied(base, donors, q, p);
    if p in Names(copied) {
      SubstitutedEntry(copied, data, p);
    }
    assert Names(replaced) == Names(base.entries) + PathSet(q.copy);
  }

  lemma SubstitutedEntry(entries: seq<NewcEntry>, data: map<Path, seq<byte>>, p: Path)
    requires DistinctNames(entries) && p in Names(entries)
    ensures p in ByPath(entries) && p in ByPath(SubstituteAll(entries, data))
    ensures ByPath(SubstituteAll(entries, data))[p] == Substitute(ByPath(entries)[p], data)
  {
    hide ByPath;
    var s := SubstituteAll(entries, data);
    SubstitutedNames(entries, data);
    ByPathDistinct(entries);
    ByPathDistinct(s);
    var i :| 0 <= i < |entries| && entries[i].name == p;
    assert s[i].name == p;
  }

  /** Replacing and deleting, once copying has given `copied`. */
  lemma AfterCopy(base: NewcArchive, donors: map<Path, NewcEntry>, q: Request)
    requires WellFormedEntries(base.entries) && ValidRequest(q) && Keyed(donors) && PathSet(q.copy) <= donors.Keys
    ensures var copied := CopiedForm(base.entries, MaxInode(base.entries) + 1, donors, q.copy);
      var replaced := ReplaceSteps(copied, q.replace);
      && (Feasible(base.entries, donors, q) ==> replaced.Ok?)
      && (replaced.Ok? ==>
            var r := Deleted(NewcArchive(replaced.value, base.tail), q.delete);
            && (r.Ok? <==> Feasible(base.entries, donors, q))
            && (r.Ok? ==> r.value == OneStep(base, donors, q)))
  {
    hide CopiedForm, ReplaceSteps, SubstituteAll, Names, MaxInode, EditedEntries, Added, Kept, FirstProblem, OneStep, ByPath;
    hide AllReplaceable, DeleteProblem, Deletable;
    var copied, data := CopiedForm(base.entries, MaxInode(base.entries) + 1, donors, q.copy), NewData(q.replace);
    DistinctCopied(base.entries, MaxInode(base.entries) + 1, donors, q.copy);
    ReplaceStepsForm(copied, q.replace);
    ReplaceableInBase(base, donors, q);
    if ReplaceSteps(copied, q.replace).Ok? {
      var replaced := SubstituteAll(copied, data);
      forall p | p in PathSet(q.delete)
        ensures DeleteProblem(ByPath(replaced), PathSet(q.delete), p).None? <==> Deletable(base.entries, q, p)
      {
        DeletableInBase(base, donors, q, p);
      }
      NoProblemMeans(ByPath(replaced), PathSet(q.delete), q.delete);
      if TRAILER !in PathSet(q.delete) {
        ReplacedForm(base, donors, q);
        DeletePhase(base, donors, q);
        OneStepTail(base, donors, q);
      }
    }
  }

  /** The three phases go through exactly when the request is feasible for the base, and together they are the one-step edit. */
  lemma EditedIsOneStep(base: NewcArchive, donor: Option<NewcArchive>, q: Request)
    requires WellFormedEntries(base.entries) && ValidRequest(q) && (q.copy != [] ==> donor.Some?)
    ensures Edited(base, donor, q).Ok? <==> Feasible(base.entries, Donors(donor), q)
    ensures Edited(base, donor, q).Ok? ==> Edited(base, donor, q).value == OneStep(base, Donors(donor), q)
  {
    hide Donors, Copied, CopiedForm, ReplaceSteps, Deleted, Names, MaxInode, OneStep, WellFormedEntries, ValidRequest;
    hide AllReplaceable, Deletable;
    DonorsKeyed(donor);
    CopyPhase(base, donor, q);
    if PathSet(q.copy) <= Donors(donor).Keys {
      AfterCopy(base, Donors(donor), q);
    }
  }

  /** A feasible request deletes nothing but paths of the base, and keeps every directory that what remains lies in. */
  lemma FeasibleDeletes(base: seq<NewcEntry>, donors: map<Path, NewcEntry>, q: Request)
    requires Feasible(base, donors, q) && DistinctNames(base) && ValidRequest(q)
    ensures PathSet(q.delete) <= Names(base)
    ensures ParentsKept(Names(base) + PathSet(q.copy), Names(base) - PathSet(q.delete) + PathSet(q.copy))
  {
    hide ByPath, Names;
    ByPathDistinct(base);
    var before, after := Names(base) + PathSet(q.copy), Names(base) - PathSet(q.delete) + PathSet(q.copy);
    forall n, i | n in after && 0 <= i < |n| && n[i] == SLASH && n[..i] in before ensures n[..i] in after {
      assert n[..i] + [SLASH] == n[..i + 1];
      assert n[..i] + [SLASH] <= n && n in before;
      assert n[..i] in PathSet(q.delete) ==> Deletable(base, q, n[..i]);
    }
  }

  /** Every directory part of a path in `after` that was there before is still there. */
  ghost predicate ParentsKept(before: set<Path>, after: set<Path>) {
    forall n, i {:trigger n[i]} :: n in after && 0 <= i < |n| && n[i] == SLASH && n[..i] in before ==> n[..i] in after
  }

  lemma OneStepTail(base: NewcArchive, donors: map<Path, NewcEntry>, q: Request)
    requires base.entries != []
    ensures OneStep(base, donors, q).tail == base.tail
  {
  }

  lemma LastIsTrailer(base: NewcArchive, donors: map<Path, NewcEntry>, q: Request)
    requires WellFormedEntries(base.entries)
    ensures var last := EditedEntries(base.entries, donors, q)[|base.entries| - 1..];
      |last| == 1 && last[0].name == TRAILER
  {
  }

  lemma SubstitutedNames(entries: seq<NewcEntry>, data: map<Path, seq<byte>>)
    ensures Names(SubstituteAll(entries, data)) == Names(entries)
    ensures DistinctNames(entries) ==> DistinctNames(SubstituteAll(entries, data))
  {
    var s := SubstituteAll(entries, data);
    assert forall i :: 0 <= i < |s| ==> s[i].name in Names(entries) && entries[i].name in Names(s);
  }

  lemma KeptOutside(entries: seq<NewcEntry>, dead: set<Path>)
    requires Names(entries) !! dead
    ensures Kept(entries, dead) == entries
  {
    assert forall i :: 0 <= i < |entries| ==> entries[i].name in Names(entries);
    KeptAll(entries, dead);
  }
}
