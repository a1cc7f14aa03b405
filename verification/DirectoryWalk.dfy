/** The walk over the directories of a volume (tools/search-ext4-bytes.py), which is any finite graph of inodes. */
module DirectoryWalk {
  import opened Bytes
  import opened Lists
  import opened ByteSearch

  datatype Entry = Entry(name: string, inode: nat)
  {
    predicate Followed() { name != "." && name != ".." }
  }

  datatype Inode = Directory(entries: seq<Entry>) | File(chunks: seq<seq<byte>>) | Other

  type Path = seq<string>

  datatype Volume = Volume(inodes: map<nat, Inode>, root: nat)
  {
    predicate Directory(i: nat) {
      i in inodes && inodes[i].Directory?
    }

    /** The root is a directory, and every entry that is followed names an inode. */
    ghost predicate Valid() {
      Directory(root) && forall d, e :: Leads(d, e) ==> e.inode in inodes
    }

    /** The entries the walk follows: all but a directory's own and its parent's. */
    predicate Leads(d: nat, e: Entry) {
      Directory(d) && e in inodes[d].entries && e.Followed()
    }

    function Entries(d: nat): seq<Entry> {
      if Directory(d) then inodes[d].entries else []
    }

    /** Whether a path of such entries leads from the root to an inode. */
    ghost predicate Reaches(path: Path, i: nat)
      decreases |path|
    {
      if path == [] then i == root
      else
        var rest, name := path[..|path| - 1], path[|path| - 1];
        exists d :: Leads(d, Entry(name, i)) && Reaches(rest, d)
    }

    ghost predicate Reachable(i: nat) {
      exists p :: Reaches(p, i)
    }
  }

  type Matches = map<Needle, seq<Path>>

  /** A match is the path of a file that holds the needle. */
  ghost predicate Sound(v: Volume, needles: seq<Needle>, matches: Matches) {
    && (forall n :: n in matches <==> n in needles)
    && forall n, p :: n in matches && p in matches[n] ==> exists i :: Holds(v, i, n) && v.Reaches(p, i)
  }

  ghost predicate Holds(v: Volume, i: nat, n: Needle) {
    i in v.inodes && v.inodes[i].File? && Contains(Joined(v.inodes[i].chunks), n)
  }

  ghost predicate ForNeedles(needles: seq<Needle>, matches: Matches) {
    forall n :: n in matches <==> n in needles
  }

  /** What the walk reports of an entry: the path of a file that holds the needle. */
  ghost function FoundAt(v: Volume, n: Needle, parent: Path, e: Entry): seq<Path> {
    if e.Followed() && Holds(v, e.inode, n) then [parent + [e.name]] else []
  }

  /** And of the entries of a directory, in order. */
  ghost function FoundIn(v: Volume, n: Needle, parent: Path, entries: seq<Entry>): seq<Path> {
    if entries == [] then []
    else FoundIn(v, n, parent, entries[..|entries| - 1]) + FoundAt(v, n, parent, entries[|entries| - 1])
  }

  /** And of the directories opened, in order. */
  ghost function FoundAll(v: Volume, n: Needle, walked: seq<Pending>): seq<Path> {
    if walked == [] then []
    else
      var last := walked[|walked| - 1];
      FoundAll(v, n, walked[..|walked| - 1]) + FoundIn(v, n, last.path, v.Entries(last.inode))
  }

  lemma FoundNext(v: Volume, n: Needle, parent: Path, entries: seq<Entry>, k: nat)
    requires k < |entries|
    ensures FoundIn(v, n, parent, entries[..k + 1]) == FoundIn(v, n, parent, entries[..k]) + FoundAt(v, n, parent, entries[k])
  {
    hide FoundAt;
    assert entries[..k + 1][..k] == entries[..k];
  }

  lemma NotReported(v: Volume, parent: Path, e: Entry)
    requires !e.Followed()
    ensures forall n :: FoundAt(v, n, parent, e) == []
  {
  }

  lemma {:induction false} FoundInIs(v: Volume, n: Needle, parent: Path, entries: seq<Entry>, p: Path)
    ensures p in FoundIn(v, n, parent, entries) <==>
      exists e :: e in entries && e.Followed() && Holds(v, e.inode, n) && p == parent + [e.name]
  {
    if entries != [] {
      hide Holds;
      var front, last := entries[..|entries| - 1], entries[|entries| - 1];
      FoundInIs(v, n, parent, front, p);
      assert forall e :: e in entries <==> e in front || e == last;
    }
  }

  /** A file at the end of a followed entry of a directory at a known path. */
  ghost predicate FoundBy(v: Volume, n: Needle, d: Pending, e: Entry, p: Path) {
    && v.Directory(d.inode) && e in v.inodes[d.inode].entries && e.name != "." && e.name != ".."
    && Holds(v, e.inode, n) && p == d.path + [e.name]
  }

  /** The walk reports exactly the followed entries, in the directories it opened, of the files that hold the needle. */
  lemma {:induction false} FoundAllIs(v: Volume, n: Needle, walked: seq<Pending>, p: Path)
    ensures p in FoundAll(v, n, walked) <==> exists d, e :: d in walked && FoundBy(v, n, d, e, p)
  {
    if walked != [] {
      hide Holds, FoundIn;
      var front, last := walked[..|walked| - 1], walked[|walked| - 1];
      FoundAllIs(v, n, front, p);
      FoundInIs(v, n, last.path, v.Entries(last.inode), p);
      assert forall d :: d in walked <==> d in front || d == last;
      if e :| e in v.Entries(last.inode) && e.Followed() && Holds(v, e.inode, n) && p == last.path + [e.name] {
        assert FoundBy(v, n, last, e, p);
      }
    }
  }

  /** What the walk owes to an entry it has seen: a directory is visited. */
  ghost predicate Seen(v: Volume, visited: set<nat>, e: Entry) {
    v.Directory(e.inode) ==> e.inode in visited
  }

  lemma SeenStays(v: Volume, visited: set<nat>, visited': set<nat>)
    requires visited <= visited'
    ensures forall e :: Seen(v, visited, e) ==> Seen(v, visited', e)
  {
  }

  /** The path of a file, for every needle it holds. */
  method AppendPath(v: Volume, needles: seq<Needle>, matches: Matches, found: set<Needle>, i: nat, path: Path) returns (m: Matches)
    requires ForNeedles(needles, matches) && found == set n | n in needles && Holds(v, i, n)
    ensures ForNeedles(needles, m)
    ensures forall n :: n in needles ==> m[n] == matches[n] + if Holds(v, i, n) then [path] else []
  {
    hide Holds;
    m := map n | n in matches :: if n in found then matches[n] + [path] else matches[n];
  }

  datatype Pending = Pending(inode: nat, path: Path)

  ghost function Ids(directories: seq<Pending>): set<nat> {
    set k | 0 <= k < |directories| :: directories[k].inode
  }

  lemma IdsOfSnoc(directories: seq<Pending>, p: Pending)
    ensures Ids(directories + [p]) == Ids(directories) + {p.inode}
  {
    assert forall k :: 0 <= k < |directories| ==> (directories + [p])[k] == directories[k];
    assert (directories + [p])[|directories|] == p;
  }

  /** Directories that can be reached by their paths, none twice: on the stack, or opened. */
  ghost predicate Located(v: Volume, directories: seq<Pending>) {
    && (forall p :: p in directories ==> v.Directory(p.inode) && v.Reaches(p.path, p.inode))
    && forall i, j :: 0 <= i < j < |directories| ==> directories[i].inode != directories[j].inode
  }

  lemma ReachesNext(v: Volume, parent: Path, d: nat, e: Entry)
    requires v.Reaches(parent, d) && v.Leads(d, e)
    ensures v.Reaches(parent + [e.name], e.inode)
  {
    var path := parent + [e.name];
    assert path[..|path| - 1] == parent && Entry(path[|path| - 1], e.inode) == e;
  }

  /** What is newly visited is a directory, and is put on the stack. */
  ghost predicate Grown(v: Volume, visited: set<nat>, ids: set<nat>, visited': set<nat>, ids': set<nat>) {
    visited <= visited' && ids' == ids + (visited' - visited) && forall i :: i in visited' - visited ==> v.Directory(i)
  }

  lemma GrownMore(v: Volume, visited: set<nat>, ids: set<nat>, visited': set<nat>, ids': set<nat>, visited'': set<nat>, ids'': set<nat>)
    requires Grown(v, visited, ids, visited', ids') && Grown(v, visited', ids', visited'', ids'')
    ensures Grown(v, visited, ids, visited'', ids'')
  {
  }

  lemma GrownNot(v: Volume, visited: set<nat>, ids: set<nat>)
    ensures Grown(v, visited, ids, visited, ids)
  {
  }

  lemma GrownInside(v: Volume, visited: set<nat>, ids: set<nat>, visited': set<nat>, ids': set<nat>)
    requires Grown(v, visited, ids, visited', ids') && ids <= visited
    ensures visited <= visited' && ids' <= visited'
  {
  }

  /** The matches after some entries of a directory. */
  ghost predicate Reported(v: Volume, needles: seq<Needle>, parent: Path, entries: seq<Entry>, matches: Matches, matches': Matches) {
    && ForNeedles(needles, matches) && ForNeedles(needles, matches')
    && forall n :: n in needles ==> matches'[n] == matches[n] + FoundIn(v, n, parent, entries)
  }

  lemma ReportedNone(v: Volume, needles: seq<Needle>, parent: Path, matches: Matches)
    requires ForNeedles(needles, matches)
    ensures Reported(v, needles, parent, [], matches, matches)
  {
  }

  lemma ReportedNext(v: Volume, needles: seq<Needle>, parent: Path, entries: seq<Entry>, k: nat,
                     matches: Matches, matches': Matches, matches'': Matches)
    requires k < |entries| && Reported(v, needles, parent, entries[..k], matches, matches') && ForNeedles(needles, matches'')
    requires forall n :: n in needles ==> matches''[n] == matches'[n] + FoundAt(v, n, parent, entries[k])
    ensures Reported(v, needles, parent, entries[..k + 1], matches, matches'')
  {
    hide FoundIn, FoundAt;
    forall n | n in needles ensures matches''[n] == matches[n] + FoundIn(v, n, parent, entries[..k + 1]) {
      FoundNext(v, n, parent, entries, k);
    }
  }

  /** The body of the loop over the entries of a directory. */
  method FollowEntry(v: Volume, needles: seq<Needle>, overlap: nat, d: nat, parent: Path, e: Entry,
                     visited: set<nat>, directories: seq<Pending>, matches: Matches)
    returns (visited': set<nat>, directories': seq<Pending>, matches': Matches)
    requires v.Valid() && v.Leads(d, e) && v.Reaches(parent, d)
    requires forall n :: n in needles ==> |n| <= overlap + 1
    requires ForNeedles(needles, matches) && Located(v, directories) && Ids(directories) <= visited
    ensures Located(v, directories') && Grown(v, visited, Ids(directories), visited', Ids(directories')) && Seen(v, visited', e)
    ensures ForNeedles(needles, matches') && forall n :: n in needles ==> matches'[n] == matches[n] + FoundAt(v, n, parent, e)
  {
    hide Volume.Reaches, Contains, Joined, Ids;
    visited', directories', matches' := visited, directories, matches;
    ReachesNext(v, parent, d, e);
    var path := parent + [e.name];
    match v.inodes[e.inode]
    case Directory(_) =>
      if e.inode !in visited {
        IdsOfSnoc(directories, Pending(e.inode, path));
        NotOnStack(directories, e.inode);
        visited' := visited + {e.inode};
        directories' := directories + [Pending(e.inode, path)];
      }
    case File(chunks) =>
      var found := SearchFile(chunks, needles, overlap);
      matches' := AppendPath(v, needles, matches, found, e.inode, path);
    case Other =>
  }

  lemma NotOnStack(directories: seq<Pending>, i: nat)
    requires i !in Ids(directories)
    ensures forall k :: 0 <= k < |directories| ==> directories[k].inode != i
  {
  }

  /** `for dirent, _ in directory.opendir()`. */
  method OpenDirectory(v: Volume, needles: seq<Needle>, overlap: nat, d: nat, parent: Path,
                       visited: set<nat>, directories: seq<Pending>, matches: Matches)
    returns (visited': set<nat>, directories': seq<Pending>, matches': Matches)
    requires v.Valid() && v.Directory(d) && v.Reaches(parent, d)
    requires forall n :: n in needles ==> |n| <= overlap + 1
    requires ForNeedles(needles, matches) && Located(v, directories) && Ids(directories) <= visited
    ensures Located(v, directories') && Grown(v, visited, Ids(directories), visited', Ids(directories'))
    ensures forall e :: v.Leads(d, e) ==> Seen(v, visited', e)
    ensures Reported(v, needles, parent, v.Entries(d), matches, matches')
  {
    hide Volume.Reaches, Located, Ids, Holds, FoundIn, FoundAt, Seen, Grown, Reported;
    ReportedNone(v, needles, parent, matches);
    visited', directories', matches' := visited, directories, matches;
    var entries := v.inodes[d].entries;
    GrownNot(v, visited, Ids(directories));
    for k := 0 to |entries|
      invariant Located(v, directories') && Grown(v, visited, Ids(directories), visited', Ids(directories')) && Ids(directories') <= visited'
      invariant forall j :: 0 <= j < k && v.Leads(d, entries[j]) ==> Seen(v, visited', entries[j])
      invariant ForNeedles(needles, matches') && Reported(v, needles, parent, entries[..k], matches, matches')
    {
      var e := entries[k];
      if e.name == "." || e.name == ".." {
        NotReported(v, parent, e);
        ReportedNext(v, needles, parent, entries, k, matches, matches', matches');
        continue;
      }
      ghost var was, ids, had := visited', Ids(directories'), matches';
      visited', directories', matches' := FollowEntry(v, needles, overlap, d, parent, e, visited', directories', matches');
      GrownMore(v, visited, Ids(directories), was, ids, visited', Ids(directories'));
      GrownInside(v, was, ids, visited', Ids(directories'));
      SeenStays(v, was, visited');
      ReportedNext(v, needles, parent, entries, k, matches, had, matches');
    }
    assert entries[..|entries|] == entries;
  }

  /** A set of directories with the root in which every entry is seen holds every directory that can be reached. */
  lemma {:induction false} ClosedHoldsAll(v: Volume, visited: set<nat>, path: Path, i: nat)
    requires v.root in visited && v.Reaches(path, i) && v.Directory(i)
    requires forall d, e :: d in visited && v.Leads(d, e) ==> Seen(v, visited, e)
    ensures i in visited
    decreases |path|
  {
    if path != [] {
      var rest, e := path[..|path| - 1], Entry(path[|path| - 1], i);
      var d :| v.Leads(d, e) && v.Reaches(rest, d);
      ClosedHoldsAll(v, visited, rest, d);
    }
  }

  /** `directories.pop()`. */
  lemma Popped(v: Volume, directories: seq<Pending>)
    requires directories != [] && Located(v, directories)
    ensures var rest, p := directories[..|directories| - 1], directories[|directories| - 1];
      && Located(v, rest) && Ids(directories) == Ids(rest) + {p.inode} && p.inode !in Ids(rest)
      && v.Directory(p.inode) && v.Reaches(p.path, p.inode)
  {
    hide Ids;
    var rest, p := directories[..|directories| - 1], directories[|directories| - 1];
    assert directories == rest + [p];
    IdsOfSnoc(rest, p);
    IdsOnStack(rest, p.inode);
  }

  lemma IdsOnStack(directories: seq<Pending>, i: nat)
    requires forall k :: 0 <= k < |directories| ==> directories[k].inode != i
    ensures i !in Ids(directories)
  {
  }

  ghost function Directories(v: Volume): set<nat> {
    set i | i in v.inodes && v.inodes[i].Directory?
  }

  lemma OneMore(v: Volume, walked: seq<Pending>, p: Pending)
    requires Located(v, walked) && p.inode !in Ids(walked) && v.Directory(p.inode) && v.Reaches(p.path, p.inode)
    ensures Located(v, walked + [p]) && Ids(walked + [p]) == Ids(walked) + {p.inode}
  {
    hide Ids, Volume.Reaches;
    IdsOfSnoc(walked, p);
    NotOnStack(walked, p.inode);
  }

  lemma Fewer(all: set<nat>, some: set<nat>, d: nat)
    requires d in all && d !in some
    ensures |all - (some + {d})| < |all - some|
  {
    assert all - some == all - (some + {d}) + {d};
  }

  /** Visited directories are on the stack or opened, never both. */
  lemma VisitedParts(rest: set<nat>, walked: set<nat>, d: nat, visited: set<nat>, visited': set<nat>, ids: set<nat>)
    requires visited == rest + {d} + walked && rest + {d} !! walked && d !in rest
    requires visited <= visited' && ids == rest + (visited' - visited)
    ensures visited' == ids + (walked + {d}) && ids !! walked + {d}
  {
  }

  /** Every entry of the directories opened so far has been seen. */
  ghost predicate Walked(v: Volume, visited: set<nat>, walked: set<nat>) {
    forall d, e :: d in walked && v.Leads(d, e) ==> Seen(v, visited, e)
  }

  lemma WalkedNext(v: Volume, visited: set<nat>, walked: set<nat>, visited': set<nat>, d: nat)
    requires Walked(v, visited, walked) && visited <= visited'
    requires forall e :: v.Leads(d, e) ==> Seen(v, visited', e)
    ensures Walked(v, visited', walked + {d})
  {
  }

  lemma {:induction false} IdsAre(v: Volume, walked: seq<Pending>, d: nat)
    requires d in Ids(walked)
    ensures exists p :: p in walked && p.inode == d
  {
    var k :| 0 <= k < |walked| && walked[k].inode == d;
    assert walked[k] in walked;
  }

  /** A finished walk has opened what can be reached. */
  lemma OpenedAll(v: Volume, walked: seq<Pending>)
    requires v.Valid() && v.root in Ids(walked) && Walked(v, Ids(walked), Ids(walked)) && Located(v, walked)
    ensures forall d :: d in Ids(walked) <==> v.Directory(d) && v.Reachable(d)
  {
    hide Ids, Seen;
    forall d | d in Ids(walked) ensures v.Directory(d) && v.Reachable(d) {
      IdsAre(v, walked, d);
    }
    forall d | v.Directory(d) && v.Reachable(d) ensures d in Ids(walked) {
      var p :| v.Reaches(p, d);
      ClosedHoldsAll(v, Ids(walked), p, d);
    }
  }

  /** A file that can be reached and holds a needle is reported once for every entry that leads to it, and nothing else is. */
  lemma ReportIs(v: Volume, n: Needle, walked: seq<Pending>)
    requires v.Valid() && Located(v, walked) && forall d :: d in Ids(walked) <==> v.Directory(d) && v.Reachable(d)
    ensures forall p :: p in FoundAll(v, n, walked) ==> exists i :: Holds(v, i, n) && v.Reaches(p, i)
    ensures forall d, e :: v.Reachable(d) && v.Leads(d, e) && Holds(v, e.inode, n) ==>
      exists p :: p in walked && p.inode == d && p.path + [e.name] in FoundAll(v, n, walked)
    ensures FoundAll(v, n, walked) == [] <==> !exists i :: v.Reachable(i) && Holds(v, i, n)
  {
    hide Ids, Holds, FoundAll, Volume.Reachable;
    forall p | p in FoundAll(v, n, walked) ensures exists i :: Holds(v, i, n) && v.Reaches(p, i) && v.Reachable(i) {
      FoundAllIs(v, n, walked, p);
      var d, e :| d in walked && FoundBy(v, n, d, e, p);
      ReachesNext(v, d.path, d.inode, e);
      ReachableBy(v, p, e.inode);
    }
    forall d, e | v.Reachable(d) && v.Leads(d, e) && Holds(v, e.inode, n)
      ensures exists p :: p in walked && p.inode == d && p.path + [e.name] in FoundAll(v, n, walked)
    {
      IdsAre(v, walked, d);
      var p :| p in walked && p.inode == d;
      assert FoundBy(v, n, p, e, p.path + [e.name]);
      FoundAllIs(v, n, walked, p.path + [e.name]);
    }
    if i :| v.Reachable(i) && Holds(v, i, n) {
      var d, e := LastStep(v, i, n);
    }
    if FoundAll(v, n, walked) != [] {
      assert FoundAll(v, n, walked)[0] in FoundAll(v, n, walked);
    }
  }

  lemma ReachableBy(v: Volume, p: Path, i: nat)
    requires v.Reaches(p, i)
    ensures v.Reachable(i)
  {
  }

  /** A file is not the root, so an entry of a directory that can be reached leads to it. */
  lemma LastStep(v: Volume, i: nat, n: Needle) returns (d: nat, e: Entry)
    requires v.Valid() && v.Reachable(i) && Holds(v, i, n)
    ensures v.Reachable(d) && v.Leads(d, e) && e.inode == i
  {
    var path :| v.Reaches(path, i);
    e := Entry(path[|path| - 1], i);
    d :| v.Leads(d, e) && v.Reaches(path[..|path| - 1], d);
  }

  /** One less than the longest needle. */
  function Overlap(needles: seq<Needle>): (overlap: nat)
    requires needles != []
    ensures forall n :: n in needles ==> |n| <= overlap + 1
    ensures exists n :: n in needles && |n| == overlap + 1
  {
    var last := needles[|needles| - 1];
    assert needles == needles[..|needles| - 1] + [last];
    if |needles| == 1 then |last| - 1
    else
      var rest := Overlap(needles[..|needles| - 1]);
      if |last| - 1 > rest then |last| - 1 else rest
  }

  /**
   * The whole search. It ends on every volume, cycles included; it opens every directory that can be reached once and no
   * other; and it reports, in the order of the directories opened, every followed entry of a file that holds a needle.
   */
  method Search(v: Volume, needles: seq<Needle>) returns (walked: seq<Pending>, matches: Matches)
    requires v.Valid() && needles != []
    ensures Located(v, walked) && forall d :: d in Ids(walked) <==> v.Directory(d) && v.Reachable(d)
    ensures ForNeedles(needles, matches) && forall n :: n in needles ==> matches[n] == FoundAll(v, n, walked)
    ensures Sound(v, needles, matches)
    ensures forall n, d, e :: n in needles && v.Reachable(d) && v.Leads(d, e) && Holds(v, e.inode, n) ==>
      exists p :: p in walked && p.inode == d && p.path + [e.name] in matches[n]
    ensures forall n :: n in needles ==> (matches[n] == [] <==> !exists i :: v.Reachable(i) && Holds(v, i, n))
  {
    hide Located, Ids, Walked, Volume.Reaches, Volume.Reachable, Holds, FoundIn;
    matches := map n | n in needles :: [];
    walked := [];
    var overlap := Overlap(needles);
    var directories, visited := [Pending(v.root, [])], {v.root};
    Started(v);
    while directories != []
      invariant Located(v, directories) && Located(v, walked) && v.root in visited
      invariant visited == Ids(directories) + Ids(walked) && Ids(directories) !! Ids(walked)
      invariant Walked(v, visited, Ids(walked))
      invariant ForNeedles(needles, matches) && forall n :: n in needles ==> matches[n] == FoundAll(v, n, walked)
      decreases |Directories(v) - Ids(walked)|
    {
      Popped(v, directories);
      var p := directories[|directories| - 1];
      directories := directories[..|directories| - 1];
      ghost var was, rest := visited, Ids(directories);
      visited, directories, matches := OpenDirectory(v, needles, overlap, p.inode, p.path, visited, directories, matches);
      WalkedNext(v, was, Ids(walked), visited, p.inode);
      OneMore(v, walked, p);
      VisitedParts(rest, Ids(walked), p.inode, was, visited, Ids(directories));
      Fewer(Directories(v), Ids(walked), p.inode);
      assert (walked + [p])[..|walked|] == walked;
      walked := walked + [p];
    }
    NoIds();
    assert visited == Ids(walked);
    OpenedAll(v, walked);
    forall n {
      ReportIs(v, n, walked);
    }
  }

  lemma NoIds()
    ensures Ids([]) == {}
  {
  }

  lemma Started(v: Volume)
    requires v.Valid()
    ensures Located(v, [Pending(v.root, [])]) && Ids([Pending(v.root, [])]) == {v.root}
    ensures Located(v, []) && Ids([]) == {} && Walked(v, {v.root}, {})
  {
  }
}
