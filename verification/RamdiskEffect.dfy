/** What a run of the ramdisk rewriter changes, what it reports and when its output can be read back. */
module RamdiskEffect {
  import opened Bytes
  import opened Hex
  import opened Newc
  import opened NewcParse
  import opened NewcGuard
  import opened RamdiskEdit
  import opened RamdiskPipeline

  lemma {:induction false} KeptEdited(entries: seq<NewcEntry>, e: NewcEntry, dead: set<Path>)
    requires e in entries && e.name !in dead
    ensures e in Kept(entries, dead)
  {
    KeptMembers(entries, dead);
  }

  lemma EditedNames(entries: seq<NewcEntry>, donors: map<Path, NewcEntry>, q: Request)
    ensures Names(EditedEntries(entries, donors, q)) == Names(entries)
    ensures DistinctNames(entries) ==> DistinctNames(EditedEntries(entries, donors, q))
  {
    var s := EditedEntries(entries, donors, q);
    assert forall i :: 0 <= i < |s| ==> s[i].name in Names(entries) && entries[i].name in Names(s);
  }

  lemma NamesOfParts(edited: seq<NewcEntry>, k: nat, added: seq<NewcEntry>, dead: set<Path>)
    requires k <= |edited| && Names(edited[k..]) !! dead
    ensures Names(Kept(edited[..k], dead) + added + edited[k..]) == Names(edited) - dead + Names(added)
  {
    hide Names, Kept;
    KeptMembers(edited[..k], dead);
    NamesConcat(Kept(edited[..k], dead), added);
    NamesConcat(Kept(edited[..k], dead) + added, edited[k..]);
    NamesConcat(edited[..k], edited[k..]);
    assert edited == edited[..k] + edited[k..];
  }

  /** The rewritten archive: distinct names with the trailer last, every survivor edited in place of its original. */
  lemma OneStepIsWellFormed(base: NewcArchive, donors: map<Path, NewcEntry>, q: Request)
    requires WellFormedEntries(base.entries) && Keyed(donors) && ValidRequest(q) && TRAILER !in PathSet(q.delete)
    ensures var w := OneStep(base, donors, q).entries;
      && WellFormedEntries(w)
      && Names(w) == Names(base.entries) - PathSet(q.delete) + Names(Added(base, donors, q))
  {
    hide Names, MaxInode, EditedEntries, Additions, Kept, ValidRequest;
    var n, dead, edited, added := |base.entries|, PathSet(q.delete), EditedEntries(base.entries, donors, q), Added(base, donors, q);
    AdditionsAre(Names(base.entries), MaxInode(base.entries) + 1, donors, q.copy);
    EditedNames(base.entries, donors, q);
    LastIsTrailer(base, donors, q);
    NamesOne(edited[n - 1]);
    assert edited[n - 1..] == [edited[n - 1]];
    NamesOfParts(edited, n - 1, added, dead);
    DistinctParts(edited, n - 1, added, dead);
  }

  lemma DistinctParts(edited: seq<NewcEntry>, k: nat, added: seq<NewcEntry>, dead: set<Path>)
    requires k <= |edited| && DistinctNames(edited) && DistinctNames(added) && Names(edited) !! Names(added)
    ensures DistinctNames(Kept(edited[..k], dead) + added + edited[k..])
  {
    hide Names, Kept, DistinctNames;
    var kept, rest := Kept(edited[..k], dead), edited[k..];
    assert edited == edited[..k] + rest;
    DistinctSplit(edited[..k], rest);
    KeptDistinct(edited[..k], dead);
    KeptMembers(edited[..k], dead);
    NamesConcat(edited[..k], rest);
    NamesConcat(kept, rest);
    DistinctJoin(kept, rest);
    DistinctMiddle(kept + rest, |kept|, added);
    assert (kept + rest)[..|kept|] == kept && (kept + rest)[|kept|..] == rest;
  }

  lemma DistinctSplit(a: seq<NewcEntry>, b: seq<NewcEntry>)
    requires DistinctNames(a + b)
    ensures DistinctNames(a) && DistinctNames(b) && Names(a) !! Names(b)
  {
    var all := a + b;
    assert forall i :: 0 <= i < |a| ==> all[i] == a[i];
    assert forall i :: 0 <= i < |b| ==> all[|a| + i] == b[i];
  }

  lemma DistinctJoin(a: seq<NewcEntry>, b: seq<NewcEntry>)
    requires DistinctNames(a) && DistinctNames(b) && Names(a) !! Names(b)
    ensures DistinctNames(a + b)
  {
    var all := a + b;
    forall i, j | 0 <= i < j < |all| ensures all[i].name != all[j].name {
      if i < |a| <= j {
        assert a[i].name in Names(a) && b[j - |a|].name in Names(b);
      }
    }
  }

  /** A base entry outside the delete set is found in the result under its name, edited and nothing else. */
  lemma Survivor(base: NewcArchive, donors: map<Path, NewcEntry>, q: Request, i: nat)
    requires i < |base.entries| && base.entries[i].name !in PathSet(q.delete)
    ensures EditedEntry(base.entries[i], donors, q) in OneStep(base, donors, q).entries
  {
    hide Added, EditedEntry;
    var n, edited := |base.entries|, EditedEntries(base.entries, donors, q);
    assert edited[i].name == base.entries[i].name by { EditedKeepsName(base.entries[i], donors, q); }
    if i < n - 1 {
      assert edited[i] == edited[..n - 1][i];
      KeptEdited(edited[..n - 1], edited[i], PathSet(q.delete));
    } else {
      assert edited[i] == edited[n - 1..][0];
    }
  }

  lemma EditedKeepsName(e: NewcEntry, donors: map<Path, NewcEntry>, q: Request)
    ensures EditedEntry(e, donors, q).name == e.name
  {
  }

  /** An edit touches data only of copied or replaced paths, and metadata only of copied ones. */
  lemma EditedEntryTouches(e: NewcEntry, donors: map<Path, NewcEntry>, q: Request)
    ensures var r := EditedEntry(e, donors, q);
      && (r.data != e.data ==> e.name in PathSet(q.copy) + Targets(q.replace))
      && (Metadata(r) != Metadata(e) ==> e.name in PathSet(q.copy))
  {
    TargetsHoldData(q.replace);
    if e.name !in PathSet(q.copy) {
      assert OverlayIfCopied(e, donors, q.copy) == e;
    }
  }

  /** The report of a run says exactly what was asked: deleted paths are removed, copied paths the base lacked are added. */
  lemma ReportOfOneStep(base: NewcArchive, donors: map<Path, NewcEntry>, q: Request)
    requires WellFormedEntries(base.entries) && Keyed(donors) && ValidRequest(q)
    requires TRAILER !in PathSet(q.delete) && PathSet(q.delete) <= Names(base.entries) && PathSet(q.copy) <= donors.Keys
    ensures var r := Compared(base, OneStep(base, donors, q));
      && r.removed == PathSet(q.delete)
      && r.added == PathSet(q.copy) - Names(base.entries)
      && r.changedData <= PathSet(q.copy) + Targets(q.replace)
      && r.changedMetadata <= PathSet(q.copy)
      && r.sameTail
  {
    hide Names, MaxInode, EditedEntries, EditedEntry, OneStep, Additions, Targets;
    var w := OneStep(base, donors, q);
    OneStepIsWellFormed(base, donors, q);
    OneStepTail(base, donors, q);
    AdditionsAre(Names(base.entries), MaxInode(base.entries) + 1, donors, q.copy);
    ByPathDistinct(base.entries);
    ByPathDistinct(w.entries);
    forall p | p in ByPath(base.entries) && p in ByPath(w.entries)
      ensures ByPath(w.entries)[p] == EditedEntry(ByPath(base.entries)[p], donors, q)
    {
      CommonPath(base, donors, q, p);
    }
    forall p | p in ByPath(base.entries)
      ensures var e := ByPath(base.entries)[p]; var d := EditedEntry(e, donors, q);
        && (d.data != e.data ==> p in PathSet(q.copy) + Targets(q.replace))
        && (Metadata(d) != Metadata(e) ==> p in PathSet(q.copy))
    {
      ByPathKeyed(base.entries);
      EditedEntryTouches(ByPath(base.entries)[p], donors, q);
    }
  }

  lemma CommonPath(base: NewcArchive, donors: map<Path, NewcEntry>, q: Request, p: Path)
    requires WellFormedEntries(base.entries) && Keyed(donors) && ValidRequest(q) && TRAILER !in PathSet(q.delete)
    requires p in ByPath(base.entries) && p in ByPath(OneStep(base, donors, q).entries)
    ensures ByPath(OneStep(base, donors, q).entries)[p] == EditedEntry(ByPath(base.entries)[p], donors, q)
  {
    hide MaxInode, EditedEntries, EditedEntry, OneStep, Additions, ByPath;
    var w := OneStep(base, donors, q).entries;
    OneStepIsWellFormed(base, donors, q);
    AdditionsAre(Names(base.entries), MaxInode(base.entries) + 1, donors, q.copy);
    ByPathDistinct(base.entries);
    ByPathDistinct(w);
    var i :| 0 <= i < |base.entries| && base.entries[i].name == p;
    assert p !in PathSet(q.delete);
    Survivor(base, donors, q, i);
    EditedKeepsName(base.entries[i], donors, q);
  }

  /** With nothing to delete and nothing new to copy, every entry stays where it was. */
  lemma NothingMoves(base: NewcArchive, donors: map<Path, NewcEntry>, q: Request)
    requires base.entries != [] && PathSet(q.delete) == {} && Added(base, donors, q) == []
    ensures PathsInOrder(OneStep(base, donors, q).entries) == PathsInOrder(base.entries)
  {
    hide MaxInode, EditedEntry, Additions;
    var n, edited := |base.entries|, EditedEntries(base.entries, donors, q);
    KeptAll(edited[..n - 1], PathSet(q.delete));
    assert OneStep(base, donors, q).entries == edited;
    forall i | 0 <= i < n ensures edited[i].name == base.entries[i].name {
      EditedKeepsName(base.entries[i], donors, q);
    }
  }

  /** The order of the paths is unchanged exactly when nothing was added or removed. */
  lemma SameOrderIff(base: NewcArchive, donors: map<Path, NewcEntry>, q: Request)
    requires WellFormedEntries(base.entries) && Keyed(donors) && ValidRequest(q)
    requires TRAILER !in PathSet(q.delete) && PathSet(q.delete) <= Names(base.entries) && PathSet(q.copy) <= donors.Keys
    ensures var r := Compared(base, OneStep(base, donors, q)); r.sameOrder <==> r.added == {} && r.removed == {}
  {
    hide MaxInode, OneStep, Additions, Names, Compared, PathsInOrder;
    var w := OneStep(base, donors, q);
    ReportOfOneStep(base, donors, q);
    OneStepIsWellFormed(base, donors, q);
    AdditionsAre(Names(base.entries), MaxInode(base.entries) + 1, donors, q.copy);
    SameOrderMeans(base, w);
    EmptyNames(Added(base, donors, q));
    if PathSet(q.delete) == {} && Added(base, donors, q) == [] {
      NothingMoves(base, donors, q);
    }
    if PathsInOrder(base.entries) == PathsInOrder(w.entries) {
      SamePathsSameNames(base.entries, w.entries);
    }
  }

  lemma SameOrderMeans(a: NewcArchive, b: NewcArchive)
    ensures Compared(a, b).sameOrder <==> PathsInOrder(a.entries) == PathsInOrder(b.entries)
  {
  }

  lemma SamePathsSameNames(a: seq<NewcEntry>, b: seq<NewcEntry>)
    requires PathsInOrder(a) == PathsInOrder(b)
    ensures Names(a) == Names(b)
  {
    assert |a| == |PathsInOrder(a)| == |b|;
    forall i | 0 <= i < |a| ensures a[i].name == b[i].name {
      assert PathsInOrder(a)[i] == PathsInOrder(b)[i];
    }
  }

  lemma EmptyNames(a: seq<NewcEntry>)
    ensures Names(a) == {} <==> a == []
  {
    if a != [] {
      assert a[0].name in Names(a);
    }
  }

  /** Added entries get inodes that no base entry has, all different. */
  lemma AddedInodesAreNew(base: NewcArchive, donors: map<Path, NewcEntry>, q: Request)
    requires base.entries != [] && Keyed(donors)
    ensures var a := Added(base, donors, q);
      && (forall i, j :: 0 <= i < |a| && 0 <= j < |base.entries| ==> a[i].inode > base.entries[j].inode)
      && (forall i, j :: 0 <= i < j < |a| ==> a[i].inode < a[j].inode)
      && (a != [] ==> a[|a| - 1].inode == MaxInode(base.entries) + |a|)
  {
    AdditionsAre(Names(base.entries), MaxInode(base.entries) + 1, donors, q.copy);
  }

  /** An edited entry still fits its record when its data does. */
  lemma EditedFits(e: NewcEntry, donors: map<Path, NewcEntry>, q: Request)
    requires EntryFits(e) && forall p :: p in donors ==> EntryFits(donors[p])
    ensures EntryFits(EditedEntry(e, donors, q)) <==> |EditedEntry(e, donors, q).data| < WORD_LIMIT
  {
    hide ValidUtf8, Checksum;
    var r := EditedEntry(e, donors, q);
    FitsByParts(e);
    if e.name in donors {
      FitsByParts(donors[e.name]);
    }
    FitsByParts(r);
  }

  /** `EntryFits` number by number. */
  lemma FitsByParts(e: NewcEntry)
    ensures EntryFits(e) <==>
      && ValidMagic(e.magic) && ValidUtf8(e.name) && FieldFits(e.inode) && FieldFits(e.mode) && FieldFits(e.uid)
      && FieldFits(e.gid) && FieldFits(e.links) && FieldFits(e.mtime) && |e.data| < WORD_LIMIT && FieldFits(e.devMajor)
      && FieldFits(e.devMinor) && FieldFits(e.rdevMajor) && FieldFits(e.rdevMinor) && |e.name| + 1 < WORD_LIMIT
  {
    hide ValidUtf8, Checksum, ValidMagic;
    var f := HeaderFields(e);
    if AllFit(f) {
      assert FieldFits(f[0]) && FieldFits(f[1]) && FieldFits(f[2]) && FieldFits(f[3]) && FieldFits(f[4])
          && FieldFits(f[5]) && FieldFits(f[6]) && FieldFits(f[7]) && FieldFits(f[8]) && FieldFits(f[9])
          && FieldFits(f[10]) && FieldFits(f[11]);
    }
  }

  lemma AddedFits(e: NewcEntry, inode: int)
    requires EntryFits(e)
    ensures EntryFits(e.(inode := inode)) <==> FieldFits(inode)
  {
    hide EntryFits;
    FitsByParts(e);
    FitsByParts(e.(inode := inode));
  }

  /** Inodes of additions and sizes of data are all that can keep the result from being readable. */
  ghost predicate OutputFits(base: NewcArchive, donors: map<Path, NewcEntry>, q: Request)
  {
    && base.entries != []
    && (Added(base, donors, q) == [] || MaxInode(base.entries) + |Added(base, donors, q)| < WORD_LIMIT)
    && forall e :: e in OneStep(base, donors, q).entries ==> |e.data| < WORD_LIMIT
  }

  lemma MaxInodeFits(base: NewcArchive)
    requires WellFormed(base)
    ensures FieldFits(MaxInode(base.entries))
  {
    hide EntryFits;
    var j :| 0 <= j < |base.entries| && base.entries[j].inode == MaxInode(base.entries);
    FitsByParts(base.entries[j]);
  }

  lemma AllAddedFit(base: NewcArchive, donors: map<Path, NewcEntry>, q: Request)
    requires WellFormed(base) && Keyed(donors) && forall p :: p in donors ==> EntryFits(donors[p])
    ensures var a := Added(base, donors, q);
      (forall e :: e in a ==> EntryFits(e)) <==> a == [] || MaxInode(base.entries) + |a| < WORD_LIMIT
  {
    hide EntryFits, Additions, MaxInode, Names;
    var a, top := Added(base, donors, q), MaxInode(base.entries);
    AdditionsAre(Names(base.entries), top + 1, donors, q.copy);
    MaxInodeFits(base);
    AllAddedFitFrom(a, top + 1, donors);
  }

  lemma AllAddedFitFrom(a: seq<NewcEntry>, first: int, donors: map<Path, NewcEntry>)
    requires first > -0x1000_0000 && forall p :: p in donors ==> EntryFits(donors[p])
    requires forall i :: 0 <= i < |a| ==> a[i].name in donors && a[i] == donors[a[i].name].(inode := first + i)
    ensures (forall e :: e in a ==> EntryFits(e)) <==> a == [] || first + |a| - 1 < WORD_LIMIT
  {
    hide EntryFits;
    forall i | 0 <= i < |a| ensures EntryFits(a[i]) <==> first + i < WORD_LIMIT {
      AddedFits(donors[a[i].name], first + i);
    }
    if a != [] {
      assert a[|a| - 1] in a;
    }
  }

  lemma MembersOfOneStep(base: NewcArchive, donors: map<Path, NewcEntry>, q: Request, e: NewcEntry)
    requires base.entries != [] && e in OneStep(base, donors, q).entries
    ensures e in Added(base, donors, q) || exists x :: x in base.entries && e == EditedEntry(x, donors, q)
  {
    hide Added, EditedEntry;
    var n, edited := |base.entries|, EditedEntries(base.entries, donors, q);
    KeptMembers(edited[..n - 1], PathSet(q.delete));
    if e !in Added(base, donors, q) {
      assert e in edited;
      var i :| 0 <= i < n && edited[i] == e;
      assert base.entries[i] in base.entries;
    }
  }

  /** The result of the edits is a well-formed archive exactly when no added inode and no data size outgrows its field. */
  lemma WellFormedIffFits(base: NewcArchive, donors: map<Path, NewcEntry>, q: Request)
    requires WellFormed(base) && Keyed(donors) && ValidRequest(q) && TRAILER !in PathSet(q.delete)
    requires forall p :: p in donors ==> EntryFits(donors[p])
    ensures WellFormed(OneStep(base, donors, q)) <==> OutputFits(base, donors, q)
  {
    hide EntryFits, EditedEntry, Added, OneStep, ValidRequest, Keyed, MaxInode;
    var w := OneStep(base, donors, q);
    OneStepIsWellFormed(base, donors, q);
    AllAddedFit(base, donors, q);
    forall e | e in Added(base, donors, q) ensures e in w.entries {
      AddedAreIn(base, donors, q, e);
    }
    forall e | e in w.entries
      ensures EntryFits(e) ==> |e.data| < WORD_LIMIT
      ensures e !in Added(base, donors, q) && |e.data| < WORD_LIMIT ==> EntryFits(e)
    {
      MembersOfOneStep(base, donors, q, e);
      FitsByParts(e);
      if e !in Added(base, donors, q) {
        var x :| x in base.entries && e == EditedEntry(x, donors, q);
        EditedFits(x, donors, q);
      }
    }
  }

  lemma AddedAreIn(base: NewcArchive, donors: map<Path, NewcEntry>, q: Request, e: NewcEntry)
    requires base.entries != [] && e in Added(base, donors, q)
    ensures e in OneStep(base, donors, q).entries
  {
    hide Added, EditedEntries, Kept;
  }

  /** The donors of a run: the entries of the donor payload, or none. */
  function DonorsOf(donorPayload: Option<seq<byte>>): map<Path, NewcEntry> {
    if donorPayload.None? || Parsed(donorPayload.value).Err? then map[]
    else ByPath(Parsed(donorPayload.value).value.entries)
  }

  lemma DonorsFit(donorPayload: Option<seq<byte>>)
    ensures Keyed(DonorsOf(donorPayload)) && forall p :: p in DonorsOf(donorPayload) ==> EntryFits(DonorsOf(donorPayload)[p])
  {
    hide EntryFits, Parsed;
    if donorPayload.Some? && Parsed(donorPayload.value).Ok? {
      var a := Parsed(donorPayload.value).value;
      ParsedIsWellFormed(donorPayload.value);
      ByPathKeyed(a.entries);
      ByPathDistinct(a.entries);
    }
  }

  /** The archive that a payload must hold to pass the guard of `main`. */
  predicate PassesGuard(payload: seq<byte>) {
    Parsed(payload).Ok? && Serialized(Parsed(payload).value) == payload
  }

  /** A run succeeds exactly when the payloads pass the guard and the request is valid and feasible for the base. */
  lemma RunSucceedsIff(basePayload: seq<byte>, donorPayload: Option<seq<byte>>, q: Request)
    ensures Run(basePayload, donorPayload, q).Ok? <==>
      && ValidRequest(q) && (q.copy != [] ==> donorPayload.Some?)
      && PassesGuard(basePayload) && (donorPayload.Some? ==> PassesGuard(donorPayload.value))
      && Feasible(Parsed(basePayload).value.entries, DonorsOf(donorPayload), q)
  {
    hide Edited, OneStep, ValidRequest, Parsed, Serialized, Compared, EntryFits, Names, ByPath, Feasible;
    if PassesGuard(basePayload) && (donorPayload.Some? ==> PassesGuard(donorPayload.value)) {
      ParsedIsWellFormed(basePayload);
      var donor := if donorPayload.None? then None else Some(Parsed(donorPayload.value).value);
      if ValidRequest(q) && (q.copy != [] ==> donor.Some?) {
        EditedIsOneStep(Parsed(basePayload).value, donor, q);
      }
    }
  }

  /** A successful run is the one-step edit of the archive it read, under a request that it could carry out. */
  lemma RunIsOneStep(basePayload: seq<byte>, donorPayload: Option<seq<byte>>, q: Request)
    requires Run(basePayload, donorPayload, q).Ok?
    ensures var o, donors := Run(basePayload, donorPayload, q).value, DonorsOf(donorPayload);
      && Parsed(basePayload) == Ok(o.base) && Serialized(o.base) == basePayload && WellFormed(o.base)
      && ValidRequest(q) && Feasible(o.base.entries, donors, q)
      && o.rewritten == OneStep(o.base, donors, q)
      && o.report == Compared(o.base, o.rewritten)
      && o.output == Serialized(o.rewritten)
  {
    hide Edited, OneStep, ValidRequest, Parsed, Serialized, Compared, EntryFits, Names, ByPath, Feasible;
    ParsedIsWellFormed(basePayload);
    var base := Parsed(basePayload).value;
    var donor := if donorPayload.None? then None else Some(Parsed(donorPayload.value).value);
    EditedIsOneStep(base, donor, q);
  }

  /** The main result: what a successful run removed, added and changed, and when its output reads back as the result. */
  lemma RunEffect(basePayload: seq<byte>, donorPayload: Option<seq<byte>>, q: Request)
    requires Run(basePayload, donorPayload, q).Ok?
    ensures var o := Run(basePayload, donorPayload, q).value;
      && WellFormedEntries(o.rewritten.entries)
      && o.report.removed == PathSet(q.delete)
      && o.report.added == PathSet(q.copy) - Names(o.base.entries)
      && ParentsKept(Names(o.base.entries) + PathSet(q.copy), Names(o.rewritten.entries))
      && o.report.changedData <= PathSet(q.copy) + Targets(q.replace)
      && o.report.changedMetadata <= PathSet(q.copy)
      && (o.report.sameOrder <==> o.report.added == {} && o.report.removed == {})
      && o.report.sameTail
      && (Parsed(o.output) == Ok(CanonicalArchive(o.rewritten)) <==> OutputFits(o.base, DonorsOf(donorPayload), q))
  {
    hide Run, OneStep, Parsed, Serialized, Compared, EntryFits, Names, DonorsOf, OutputFits, Targets, ParentsKept;
    hide AllReplaceable, Deletable, Added;
    var o, donors := Run(basePayload, donorPayload, q).value, DonorsOf(donorPayload);
    RunIsOneStep(basePayload, donorPayload, q);
    DonorsFit(donorPayload);
    FeasibleDeletes(o.base.entries, donors, q);
    OneStepIsWellFormed(o.base, donors, q);
    AddedNames(o.base, donors, q);
    ReportOfOneStep(o.base, donors, q);
    SameOrderIff(o.base, donors, q);
    WellFormedIffFits(o.base, donors, q);
    ParseSerializedIff(o.rewritten);
  }

  /** The names after the edit, as a set. */
  lemma AddedNames(base: NewcArchive, donors: map<Path, NewcEntry>, q: Request)
    requires base.entries != [] && Keyed(donors) && ValidRequest(q) && PathSet(q.copy) <= donors.Keys
    ensures Names(base.entries) - PathSet(q.delete) + Names(Added(base, donors, q))
         == Names(base.entries) - PathSet(q.delete) + PathSet(q.copy)
  {
    hide MaxInode, Additions, Names;
    AdditionsAre(Names(base.entries), MaxInode(base.entries) + 1, donors, q.copy);
  }
}
