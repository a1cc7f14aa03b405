/** Verifying and identifying a finger (libfprint: img.c with imgdev.c), for any function that scores two samples. */
module FpMatch {
  import opened Lists

  const NO_MATCH := 0
  const MATCH := 1
  const RETRY := 100
  const EINVAL := 22
  const MIN_ACCEPTABLE_MINUTIAE := 11
  const BOZORTH3_DEFAULT_THRESHOLD := 40
  const NBIS_MINUTIAE := 1

  datatype Print<S> = Print(kind: int, samples: seq<S>)

  /** How a scan ends: no image, no minutiae found in it (a negative code), or a sample with its number of minutiae. */
  datatype Scan<S> = NoImage(code: int) | NoMinutiae(code: int) | Image(sample: S, minutiae: nat)

  /** The best score against a list of samples, and 0 when none is better. */
  function Best<S>(score: (S, S) -> int, probe: S, samples: seq<S>): int {
    if samples == [] then 0 else Max(Best(score, probe, samples[..|samples| - 1]), score(probe, samples[|samples| - 1]))
  }

  function Max(a: int, b: int): int {
    if a > b then a else b
  }

  /** Some sample's score reaches the threshold. */
  ghost predicate Hit<S(!new)>(score: (S, S) -> int, probe: S, samples: seq<S>, threshold: int) {
    exists s :: s in samples && score(probe, s) >= threshold
  }

  /** `fpi_img_compare_print_data`; an enrolled print has a sample. */
  method ComparePrintData<S>(score: (S, S) -> int, enrolled: Print<S>, taken: Print<S>) returns (r: int)
    requires enrolled.samples != []
    ensures r == if enrolled.kind != NBIS_MINUTIAE || taken.kind != NBIS_MINUTIAE || |taken.samples| != 1 then -EINVAL
                 else Best(score, taken.samples[0], enrolled.samples)
  {
    if enrolled.kind != NBIS_MINUTIAE || taken.kind != NBIS_MINUTIAE || |taken.samples| != 1 {
      return -EINVAL;
    }
    var probe, list, i := taken.samples[0], enrolled.samples, 0;
    r := 0;
    while i < |list|
      invariant i <= |list| && r == Best(score, probe, list[..i])
    {
      assert list[..i + 1][..i] == list[..i];
      r := Max(score(probe, list[i]), r);
      i := i + 1;
    }
    assert list[..i] == list;
  }

  /** `fpi_img_compare_print_data_to_gallery`; every print of the gallery has a sample. */
  method CompareToGallery<S(!new)>(score: (S, S) -> int, taken: Print<S>, gallery: seq<Print<S>>, threshold: int)
    returns (r: int, offset: int)
    requires forall i :: 0 <= i < |gallery| ==> gallery[i].samples != []
    ensures |taken.samples| != 1 ==> r == -EINVAL
    ensures |taken.samples| == 1 ==> Identified(score, taken.samples[0], gallery, threshold, r, offset)
  {
    offset := -1;
    if |taken.samples| != 1 {
      return -EINVAL, offset;
    }
    var probe := taken.samples[0];
    for i := 0 to |gallery|
      invariant forall j :: 0 <= j < i ==> !Hit(score, probe, gallery[j].samples, threshold)
    {
      var list := gallery[i].samples;
      for k := 0 to |list|
        invariant forall j :: 0 <= j < k ==> score(probe, list[j]) < threshold
      {
        if score(probe, list[k]) >= threshold {
          assert list[k] in list;
          return MATCH, i;
        }
      }
    }
    r := NO_MATCH;
  }

  function Threshold(bz3: int): int {
    if bz3 == 0 then BOZORTH3_DEFAULT_THRESHOLD else bz3
  }

  /** `fpi_img_to_print_data_new`. */
  method PrintOf<S>(scan: Scan<S>) returns (r: int, p: Print<S>)
    requires !scan.NoImage? && (scan.NoMinutiae? ==> scan.code < 0)
    ensures r == match scan case NoMinutiae(code) => code case Image(_, n) => if n < MIN_ACCEPTABLE_MINUTIAE then -1 else 0
    ensures r == 0 ==> p == Print(NBIS_MINUTIAE, [scan.sample])
  {
    p := Print(NBIS_MINUTIAE, []);
    match scan
    case NoMinutiae(code) => r := code;
    case Image(sample, minutiae) =>
      if minutiae < MIN_ACCEPTABLE_MINUTIAE {
        return -1, p;
      }
      r, p := 0, Print(NBIS_MINUTIAE, [sample]);
  }

  /** Enough minutiae to be scored. */
  predicate Usable<S>(scan: Scan<S>) {
    scan.Image? && scan.minutiae >= MIN_ACCEPTABLE_MINUTIAE
  }

  /** What verification says of an enrolled print, given an image. */
  function VerifyVerdict<S>(score: (S, S) -> int, bz3: int, enrolled: Print<S>, scan: Scan<S>): int {
    if !Usable(scan) || enrolled.kind != NBIS_MINUTIAE then RETRY
    else if Best(score, scan.sample, enrolled.samples) >= Threshold(bz3) then MATCH
    else NO_MATCH
  }

  /** What identification says of a gallery: the first print that is hit, whatever its kind, or none. */
  ghost predicate Identified<S(!new)>(score: (S, S) -> int, probe: S, gallery: seq<Print<S>>, threshold: int, r: int, offset: int) {
    && (r == MATCH || r == NO_MATCH)
    && (r == MATCH ==> 0 <= offset < |gallery| && Hit(score, probe, gallery[offset].samples, threshold))
    && forall i :: 0 <= i < |gallery| && (r == MATCH ==> i < offset) ==> !Hit(score, probe, gallery[i].samples, threshold)
  }

  /** `img_dev_verify`. */
  method Verify<S>(score: (S, S) -> int, bz3: int, enrolled: Print<S>, scan: Scan<S>) returns (r: int)
    requires enrolled.samples != [] && !(scan.NoImage? && scan.code == 0) && (scan.NoMinutiae? ==> scan.code < 0)
    ensures r == if scan.NoImage? then scan.code else VerifyVerdict(score, bz3, enrolled, scan)
  {
    if scan.NoImage? {
      return scan.code;
    }
    var p: Print<S>;
    r, p := PrintOf(scan);
    if r >= 0 {
      r := ComparePrintData(score, enrolled, p);
      BestIsNotNegative(score, scan.sample, enrolled.samples);
    }
    if r < 0 {
      return RETRY;
    }
    r := if r >= Threshold(bz3) then MATCH else NO_MATCH;
  }

  /** `img_dev_identify`; its own test for too few minutiae never succeeds, as making the print has failed before. */
  method Identify<S(!new)>(score: (S, S) -> int, bz3: int, gallery: seq<Print<S>>, scan: Scan<S>) returns (r: int, offset: int)
    requires forall i :: 0 <= i < |gallery| ==> gallery[i].samples != []
    requires !(scan.NoImage? && scan.code == 0) && (scan.NoMinutiae? ==> scan.code < 0)
    ensures scan.NoImage? ==> r == scan.code
    ensures !scan.NoImage? && !Usable(scan) ==> r < 0
    ensures Usable(scan) ==> Identified(score, scan.sample, gallery, Threshold(bz3), r, offset)
  {
    offset := -1;
    if scan.NoImage? {
      return scan.code, offset;
    }
    var p: Print<S>;
    r, p := PrintOf(scan);
    if r < 0 {
      return;
    }
    if scan.minutiae < MIN_ACCEPTABLE_MINUTIAE {
      assert false;
    }
    r, offset := CompareToGallery(score, p, gallery, Threshold(bz3));
  }

  // ---- What the scores mean

  lemma {:induction false} BestIsNotNegative<S>(score: (S, S) -> int, probe: S, samples: seq<S>)
    ensures Best(score, probe, samples) >= 0
  {
    if samples != [] {
      BestIsNotNegative(score, probe, samples[..|samples| - 1]);
    }
  }

  /** The best score reaches a threshold exactly when some sample's does, or the threshold asks for nothing. */
  lemma {:induction false} BestReachesIff<S(!new)>(score: (S, S) -> int, probe: S, samples: seq<S>, threshold: int)
    ensures Best(score, probe, samples) >= threshold <==> Hit(score, probe, samples, threshold) || threshold <= 0
  {
    if samples != [] {
      var rest, s := samples[..|samples| - 1], samples[|samples| - 1];
      BestReachesIff(score, probe, rest, threshold);
      assert samples == rest + [s];
    }
  }

  /** The codes of verification, by the scores: 1 for a match, 0 for none, 100 to scan again. */
  lemma VerdictIs<S(!new)>(score: (S, S) -> int, bz3: int, p: Print<S>, scan: Scan<S>)
    requires scan.Image?
    ensures var threshold := if bz3 == 0 then 40 else bz3;
      VerifyVerdict(score, bz3, p, scan) ==
        if scan.minutiae < 11 || p.kind != 1 then 100
        else if threshold <= 0 || exists s :: s in p.samples && score(scan.sample, s) >= threshold then 1
        else 0
  {
    BestReachesIff(score, scan.sample, p.samples, Threshold(bz3));
  }

  /** The codes of identification: 1 with the first print that has a sample of that score, 0 when none has. */
  lemma IdentifiedIs<S(!new)>(score: (S, S) -> int, bz3: int, gallery: seq<Print<S>>, probe: S, r: int, offset: int)
    ensures var threshold := if bz3 == 0 then 40 else bz3;
      Identified(score, probe, gallery, Threshold(bz3), r, offset) <==>
        || (r == 0 && forall i, s :: 0 <= i < |gallery| && s in gallery[i].samples ==> score(probe, s) < threshold)
        || (r == 1 && 0 <= offset < |gallery| && (exists s :: s in gallery[offset].samples && score(probe, s) >= threshold)
            && forall i, s :: 0 <= i < offset && s in gallery[i].samples ==> score(probe, s) < threshold)
  {
  }

  /** Verification and identification judge one print alike. */
  ghost predicate Agree<S(!new)>(score: (S, S) -> int, bz3: int, p: Print<S>, scan: Scan<S>)
    requires Usable(scan)
  {
    VerifyVerdict(score, bz3, p, scan) == MATCH <==> Identified(score, scan.sample, [p], Threshold(bz3), MATCH, 0)
  }

  /** When they do, for any score and any print. */
  lemma AgreeIff<S(!new)>(score: (S, S) -> int, bz3: int, p: Print<S>, scan: Scan<S>)
    requires Usable(scan)
    ensures var hit := Hit(score, scan.sample, p.samples, Threshold(bz3));
      Agree(score, bz3, p, scan) <==> if p.kind == NBIS_MINUTIAE then Threshold(bz3) > 0 || hit else !hit
  {
    BestReachesIff(score, scan.sample, p.samples, Threshold(bz3));
    assert [p][0] == p;
  }

  /** They judge a print alike whatever its scores exactly for a positive threshold and a print of the kind that is scored. */
  lemma VerifyAndIdentifyAgreeIff<S(!new)>(bz3: int, p: Print<S>, scan: Scan<S>)
    requires Usable(scan) && p.samples != []
    ensures (forall score: (S, S) -> int :: Agree(score, bz3, p, scan)) <==> Threshold(bz3) > 0 && p.kind == NBIS_MINUTIAE
  {
    forall score: (S, S) -> int
      ensures var hit := Hit(score, scan.sample, p.samples, Threshold(bz3));
        Agree(score, bz3, p, scan) <==> if p.kind == NBIS_MINUTIAE then Threshold(bz3) > 0 || hit else !hit
    {
      AgreeIff(score, bz3, p, scan);
    }
    var low, high := Always<S>(Threshold(bz3) - 1), Always<S>(Threshold(bz3));
    assert p.samples[0] in p.samples && high(scan.sample, p.samples[0]) >= Threshold(bz3);
    assert Hit(high, scan.sample, p.samples, Threshold(bz3)) && !Hit(low, scan.sample, p.samples, Threshold(bz3));
  }

  /** The score that is always the same. */
  function Always<S(!new)>(score: int): (f: (S, S) -> int)
    ensures forall a, b :: f(a, b) == score
  {
    (a: S, b: S) => score
  }

  /** A print of another kind that scores well is identified, while its verification asks for another scan. */
  lemma OtherKindIsIdentifiedOnly<S(!new)>(score: (S, S) -> int, bz3: int, p: Print<S>, scan: Scan<S>)
    requires Usable(scan) && p.kind != NBIS_MINUTIAE && Hit(score, scan.sample, p.samples, Threshold(bz3))
    ensures VerifyVerdict(score, bz3, p, scan) == RETRY
    ensures Identified(score, scan.sample, [p], Threshold(bz3), MATCH, 0)
    ensures !Agree(score, bz3, p, scan)
  {
    AgreeIff(score, bz3, p, scan);
    assert [p][0] == p;
  }

  /**
   * With a positive threshold and a gallery of the kind that is scored, the print identified is the first that would verify,
   * and none is identified exactly when none would.
   */
  lemma IdentifiedIsFirstVerified<S(!new)>(score: (S, S) -> int, bz3: int, gallery: seq<Print<S>>, scan: Scan<S>, offset: int)
    requires Usable(scan) && Threshold(bz3) > 0 && forall i :: 0 <= i < |gallery| ==> gallery[i].kind == NBIS_MINUTIAE
    ensures Identified(score, scan.sample, gallery, Threshold(bz3), MATCH, offset) <==>
      && 0 <= offset < |gallery| && VerifyVerdict(score, bz3, gallery[offset], scan) == MATCH
      && forall i :: 0 <= i < offset ==> VerifyVerdict(score, bz3, gallery[i], scan) == NO_MATCH
    ensures Identified(score, scan.sample, gallery, Threshold(bz3), NO_MATCH, offset) <==>
      forall i :: 0 <= i < |gallery| ==> VerifyVerdict(score, bz3, gallery[i], scan) == NO_MATCH
  {
    forall i | 0 <= i < |gallery|
      ensures var hit := Hit(score, scan.sample, gallery[i].samples, Threshold(bz3));
        VerifyVerdict(score, bz3, gallery[i], scan) == if hit then MATCH else NO_MATCH
    {
      BestReachesIff(score, scan.sample, gallery[i].samples, Threshold(bz3));
    }
  }

  /** The order of an enrolled print's samples matters neither to its score nor to its being hit. */
  lemma ReversalChangesNothing<S(!new)>(score: (S, S) -> int, probe: S, samples: seq<S>, threshold: int)
    ensures Best(score, probe, Reversed(samples)) == Best(score, probe, samples)
    ensures Hit(score, probe, Reversed(samples), threshold) <==> Hit(score, probe, samples, threshold)
  {
    ReversedMembers(samples);
    var a, b := Best(score, probe, Reversed(samples)), Best(score, probe, samples);
    BestReachesIff(score, probe, samples, a);
    BestReachesIff(score, probe, Reversed(samples), a);
    BestReachesIff(score, probe, samples, b);
    BestReachesIff(score, probe, Reversed(samples), b);
    BestIsNotNegative(score, probe, samples);
    BestIsNotNegative(score, probe, Reversed(samples));
  }

  /** A gallery as it is after saving and loading every print. */
  function Reloaded<S>(gallery: seq<Print<S>>): (r: seq<Print<S>>)
    ensures |r| == |gallery|
  {
    seq(|gallery|, i requires 0 <= i < |gallery| => gallery[i].(samples := Reversed(gallery[i].samples)))
  }

  /** Reversing every print's samples changes no verdict: not that of verification, not that of identification nor its offset. */
  lemma ReloadingKeepsVerdicts<S(!new)>(score: (S, S) -> int, bz3: int, gallery: seq<Print<S>>, scan: Scan<S>, r: int, offset: int)
    requires Usable(scan)
    ensures Identified(score, scan.sample, Reloaded(gallery), Threshold(bz3), r, offset)
      <==> Identified(score, scan.sample, gallery, Threshold(bz3), r, offset)
    ensures forall i :: 0 <= i < |gallery| ==>
      VerifyVerdict(score, bz3, Reloaded(gallery)[i], scan) == VerifyVerdict(score, bz3, gallery[i], scan)
  {
    forall i | 0 <= i < |gallery|
      ensures Hit(score, scan.sample, Reloaded(gallery)[i].samples, Threshold(bz3))
        <==> Hit(score, scan.sample, gallery[i].samples, Threshold(bz3))
      ensures VerifyVerdict(score, bz3, Reloaded(gallery)[i], scan) == VerifyVerdict(score, bz3, gallery[i], scan)
    {
      ReversalChangesNothing(score, scan.sample, gallery[i].samples, Threshold(bz3));
    }
  }
}
