/** Searching the files of a volume for byte strings (tools/search-ext4-bytes.py): files by chunks, directories by a stack. */
module ByteSearch {
  import opened Bytes
  import opened Lists

  type Needle = n: seq<byte> | n != [] witness [0]

  predicate OccursAt(text: seq<byte>, needle: seq<byte>, i: int) {
    0 <= i <= |text| - |needle| && text[i..i + |needle|] == needle
  }

  /** `needle in text`. */
  predicate Contains(text: seq<byte>, needle: seq<byte>) {
    exists i :: 0 <= i <= |text| && OccursAt(text, needle, i)
  }

  /** `s[-n:]`, and nothing for 0. */
  function Last(s: seq<byte>, n: nat): (t: seq<byte>)
    ensures |t| == if |s| <= n then |s| else n
  {
    if |s| <= n then s else s[|s| - n..]
  }

  /** The whole file. */
  function Joined(chunks: seq<seq<byte>>): seq<byte> {
    Flat(chunks)
  }

  // ---- One file

  /** An occurrence inside a slice is one in the whole, moved. */
  lemma OccursInSlice(text: seq<byte>, lo: nat, hi: nat, needle: seq<byte>, i: int)
    requires lo <= hi <= |text|
    ensures OccursAt(text[lo..hi], needle, i) <==> lo <= lo + i <= hi - |needle| && OccursAt(text, needle, lo + i)
  {
    if 0 <= i <= hi - lo - |needle| {
      SliceOfSlice(text, lo, hi, i, i + |needle|);
    }
  }

  lemma SliceContains(text: seq<byte>, lo: nat, hi: nat, needle: seq<byte>)
    requires lo <= hi <= |text| && Contains(text[lo..hi], needle)
    ensures Contains(text, needle)
  {
    hide OccursAt;
    var i :| 0 <= i <= hi - lo && OccursAt(text[lo..hi], needle, i);
    OccursInSlice(text, lo, hi, needle, i);
  }

  /** An occurrence that does not end in the first part starts in the last, when they overlap enough. */
  lemma ContainsSplits(text: seq<byte>, cut: nat, end: nat, needle: seq<byte>)
    requires cut <= end <= |text| && (cut == 0 || |needle| <= end - cut + 1)
    ensures Contains(text, needle) ==> Contains(text[0..end], needle) || Contains(text[cut..|text|], needle)
  {
    hide OccursAt;
    if i :| 0 <= i <= |text| && OccursAt(text, needle, i) {
      OccursInside(text, needle, i);
      OccursInSlice(text, 0, end, needle, i);
      OccursInSlice(text, cut, |text|, needle, i - cut);
      assert i <= end - |needle| ==> OccursAt(text[0..end], needle, i);
      assert i >= cut ==> OccursAt(text[cut..|text|], needle, i - cut);
    }
  }

  lemma OccursInside(text: seq<byte>, needle: seq<byte>, i: int)
    requires OccursAt(text, needle, i)
    ensures 0 <= i <= |text| - |needle|
  {
  }

  /** A needle that fits the overlap is in what was read exactly when it was before, or is in the tail and the chunk. */
  lemma ContainsAcross(done: seq<byte>, chunk: seq<byte>, needle: seq<byte>, overlap: nat)
    requires 0 < |needle| <= overlap + 1
    ensures Contains(done + chunk, needle) <==> Contains(done, needle) || Contains(Last(done, overlap) + chunk, needle)
  {
    hide Contains;
    var all, cut := done + chunk, |done| - |Last(done, overlap)|;
    assert all[0..|done|] == done && all[cut..|all|] == Last(done, overlap) + chunk;
    ContainsSplits(all, cut, |done|, needle);
    if Contains(all[0..|done|], needle) {
      SliceContains(all, 0, |done|, needle);
    }
    if Contains(all[cut..|all|], needle) {
      SliceContains(all, cut, |all|, needle);
    }
  }

  lemma LastAcross(done: seq<byte>, chunk: seq<byte>, overlap: nat)
    ensures overlap == 0 ==> Last(done + chunk, overlap) == []
    ensures Last(Last(done, overlap) + chunk, overlap) == Last(done + chunk, overlap)
  {
  }

  /** The needles in a text, added to those found already. */
  method FindAll(text: seq<byte>, needles: seq<Needle>, found: set<Needle>) returns (found': set<Needle>)
    ensures found' == found + set n | n in needles && Contains(text, n)
  {
    hide Contains;
    found' := found;
    for j := 0 to |needles|
      invariant found' == found + set n | n in needles[..j] && Contains(text, n)
    {
      if needles[j] !in found' && Contains(text, needles[j]) {
        found' := found' + {needles[j]};
      }
    }
    assert needles[..|needles|] == needles;
  }

  lemma JoinedNext(chunks: seq<seq<byte>>, i: nat)
    requires i < |chunks|
    ensures Joined(chunks[..i + 1]) == Joined(chunks[..i]) + chunks[i]
  {
    assert chunks[..i + 1][..i] == chunks[..i];
  }

  /** The search of one file, given its reads up to the empty one: found are the needles in the whole file, wherever cut. */
  method SearchFile(chunks: seq<seq<byte>>, needles: seq<Needle>, overlap: nat) returns (found: set<Needle>)
    requires forall n :: n in needles ==> |n| <= overlap + 1
    ensures found == set n | n in needles && Contains(Joined(chunks), n)
  {
    hide Contains, Last, Joined;
    found := {};
    var tail := [];
    ghost var done := Joined(chunks[..0]);
    NothingRead(chunks, overlap);
    forall n | n in needles ensures !Contains(done, n) {
      NothingContains(n);
    }
    for i := 0 to |chunks|
      invariant done == Joined(chunks[..i]) && tail == Last(done, overlap)
      invariant found == set n | n in needles && Contains(done, n)
    {
      var candidate := tail + chunks[i];
      found := FindAll(candidate, needles, found);
      forall n | n in needles ensures Contains(done + chunks[i], n) <==> Contains(done, n) || Contains(candidate, n) {
        ContainsAcross(done, chunks[i], n, overlap);
      }
      JoinedNext(chunks, i);
      LastAcross(done, chunks[i], overlap);
      done := done + chunks[i];
      tail := if overlap != 0 then Last(candidate, overlap) else [];
    }
    assert chunks[..|chunks|] == chunks;
  }

  lemma NothingRead(chunks: seq<seq<byte>>, overlap: nat)
    ensures Joined(chunks[..0]) == [] && Last([], overlap) == []
  {
  }

  lemma NothingContains(n: Needle)
    ensures !Contains([], n)
  {
  }
}
