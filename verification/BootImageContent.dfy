/** Which bytes of a boot image hold what, and what a repacked image holds, field by field. */
module BootImageContent {
  import opened Arithmetic
  import opened Bytes
  import opened BootImage

  /** The little-endian number in four bytes. */
  function Word(raw: seq<byte>, at: nat): nat
    requires at + 4 <= |raw|
  {
    raw[at] as nat + 0x100 * raw[at + 1] as nat + 0x1_0000 * raw[at + 2] as nat + 0x100_0000 * raw[at + 3] as nat
  }

  /** The header of a raw image holds the numbers and text fields of `b`. */
  ghost predicate HeaderHolds(raw: seq<byte>, b: BootImage) {
    && |raw| >= 1632
    && (forall i :: 0 <= i < 8 ==> raw[i] == "ANDROID!"[i] as int)
    && Word(raw, 8) == |b.kernel| && Word(raw, 12) == b.kernelAddr
    && Word(raw, 16) == |b.ramdisk| && Word(raw, 20) == b.ramdiskAddr
    && Word(raw, 24) == |b.second| && Word(raw, 28) == b.secondAddr
    && Word(raw, 32) == b.tagsAddr && Word(raw, 36) == b.pageSize
    && Word(raw, 40) == |b.dt| && Word(raw, 44) == b.osVersion
    && raw[48..64] == b.name && raw[64..576] == b.cmdline && raw[576..608] == b.imageId && raw[608..1632] == b.extraCmdline
  }

  /** The sections follow in whole pages. */
  ghost predicate SectionsHold(raw: seq<byte>, b: BootImage) {
    && b.pageSize >= 1632
    &&
    var kernel := b.pageSize;
    var ramdisk := kernel + Align(|b.kernel|, b.pageSize);
    var second := ramdisk + Align(|b.ramdisk|, b.pageSize);
    var dt := second + Align(|b.second|, b.pageSize);
    && dt + Align(|b.dt|, b.pageSize) <= |raw|
    && raw[kernel..kernel + |b.kernel|] == b.kernel && raw[ramdisk..ramdisk + |b.ramdisk|] == b.ramdisk
    && raw[second..second + |b.second|] == b.second && raw[dt..dt + |b.dt|] == b.dt
  }

  lemma {:induction false} UnpackedAt(s: seq<byte>, k: nat)
    requires |s| % 4 == 0 && k < |s| / 4
    ensures UnpackWords(s)[k] == Word(s, 4 * k)
  {
    if k == 0 {
      FromLe32Is(s[..4]);
    } else {
      UnpackedAt(s[4..], k - 1);
    }
  }

  lemma WordInHeader(raw: seq<byte>, k: nat)
    requires |raw| >= HEADER_SIZE && k < 10
    ensures WordsOf(raw)[k] == Word(raw, 8 + 4 * k)
  {
    hide UnpackWords;
    UnpackedAt(raw[8..48], k);
  }

  lemma ReadHeader(raw: seq<byte>)
    requires Read(raw).Ok?
    ensures HeaderHolds(raw, Read(raw).value)
  {
    hide WordsOf, Word, Align, ValidPageSize;
    forall k | 0 <= k < 10 ensures WordsOf(raw)[k] == Word(raw, 8 + 4 * k) {
      WordInHeader(raw, k);
    }
    assert forall i :: 0 <= i < 8 ==> raw[i] == raw[..8][i];
  }

  /** An image that was read, byte by byte. */
  lemma ReadIs(raw: seq<byte>)
    requires Read(raw).Ok?
    ensures HeaderHolds(raw, Read(raw).value) && SectionsHold(raw, Read(raw).value)
  {
    hide Read, HeaderHolds, Align;
    ReadHeader(raw);
    ReadSections(raw);
  }

  /** A packed image, byte by byte. */
  lemma PackedIs(b: BootImage)
    requires Fits(b)
    ensures HeaderHolds(Packed(b), b) && SectionsHold(Packed(b), b)
    ensures Read(Packed(b)).Ok? && CleanImage(Packed(b))
  {
    hide Packed, HeaderHolds, SectionsHold, Fits, CleanImage, Read;
    ReadPacked(b);
    ReadIs(Packed(b));
    PackedReadIff(Packed(b));
  }

  /** A raw image is read exactly when magic, page size and length are right. */
  lemma ReadIff(raw: seq<byte>)
    ensures Read(raw).Ok? <==>
      && |raw| >= 1632 && (forall i :: 0 <= i < 8 ==> raw[i] == "ANDROID!"[i] as int)
      && Word(raw, 36) >= 1632 && (exists k: nat :: Word(raw, 36) == Power2(k))
      && var page := Word(raw, 36);
         page + Align(Word(raw, 8), page) + Align(Word(raw, 16), page) + Align(Word(raw, 24), page) + Align(Word(raw, 40), page)
           <= |raw|
  {
    hide WordsOf, Word, Align, ValidPageSize, Power2;
    if |raw| >= 1632 {
      forall k | 0 <= k < 10 ensures WordsOf(raw)[k] == Word(raw, 8 + 4 * k) {
        WordInHeader(raw, k);
      }
      ValidPageSizeIff(Word(raw, 36));
      assert |raw[..8]| == |BOOT_MAGIC| && forall i :: 0 <= i < 8 ==> BOOT_MAGIC[i] == "ANDROID!"[i] as int;
      assert forall i :: 0 <= i < 8 ==> raw[i] == raw[..8][i];
    }
  }

  /** What a repacked image holds, against the base `x`: `other` is the image the kernel was taken from, if any. */
  ghost predicate HoldsRequested(b: BootImage, x: BootImage, a: Arguments) {
    && (if a.kernelFromImage.Some? then Read(a.kernelFromImage.value).Ok? && b.kernel == Read(a.kernelFromImage.value).value.kernel
        else if a.kernel.Some? then b.kernel == a.kernel.value
        else b.kernel == x.kernel)
    && (if a.ramdisk.Some? then b.ramdisk == a.ramdisk.value else b.ramdisk == x.ramdisk)
    && (if a.second.Some? then b.second == a.second.value else b.second == x.second)
    && (if a.dt.Some? then b.dt == a.dt.value else b.dt == x.dt)
    && b.kernelAddr == x.kernelAddr && b.ramdiskAddr == x.ramdiskAddr && b.secondAddr == x.secondAddr
    && b.tagsAddr == x.tagsAddr && b.pageSize == x.pageSize && b.osVersion == x.osVersion
    && b.name == x.name && b.cmdline == x.cmdline && b.extraCmdline == x.extraCmdline
  }

  /** The four bytes of a length, the lowest first. */
  function LengthBytes(n: nat): seq<byte> {
    [n % 0x100, n / 0x100 % 0x100, n / 0x1_0000 % 0x100, n / 0x100_0000 % 0x100]
  }

  /** The bytes whose digest identifies an image; the device tree is left out of the one scheme when there is none. */
  function IdentifiedBytes(b: BootImage, scheme: Scheme): seq<byte> {
    b.kernel + LengthBytes(|b.kernel|) + (b.ramdisk + LengthBytes(|b.ramdisk|)) + (b.second + LengthBytes(|b.second|))
    + if b.dt == [] && scheme == Conditional then [] else b.dt + LengthBytes(|b.dt|)
  }

  ghost predicate IdentifiedBy(sha1: seq<byte> -> Digest, b: BootImage, scheme: Scheme) {
    b.imageId == sha1(IdentifiedBytes(b, scheme)) + [0, 0, 0, 0, 0, 0, 0, 0, 0, 0, 0, 0]
  }

  lemma IdIs(sha1: seq<byte> -> Digest, b: BootImage, scheme: Scheme)
    requires SizesFit(b)
    ensures IdOf(sha1, b, scheme) == sha1(IdentifiedBytes(b, scheme)) + [0, 0, 0, 0, 0, 0, 0, 0, 0, 0, 0, 0]
  {
    hide Le32;
    Le32Is(|b.kernel|);
    Le32Is(|b.ramdisk|);
    Le32Is(|b.second|);
    Le32Is(|b.dt|);
    var three := Tagged(b.kernel) + Tagged(b.ramdisk) + Tagged(b.second);
    assert three + [] == three;
  }

  /** The scheme asked for, or the one that the base carries: the first when both fit. */
  ghost predicate Chosen(sha1: seq<byte> -> Digest, x: BootImage, a: Arguments, scheme: Scheme) {
    if a.scheme.Some? then scheme == a.scheme.value
    else IdentifiedBy(sha1, x, scheme) && (scheme == AllSections ==> !IdentifiedBy(sha1, x, Conditional))
  }

  /** A repacked image, read again, has every component asked for, all else from the base, and the identifier of its own bytes. */
  lemma RepackedHolds(sha1: seq<byte> -> Digest, raw: seq<byte>, a: Arguments)
    requires Repacked(sha1, raw, a).Ok?
    ensures Read(raw).Ok? && Read(Repacked(sha1, raw, a).value).Ok?
    ensures var x, b := Read(raw).value, Read(Repacked(sha1, raw, a).value).value;
      HoldsRequested(b, x, a) && exists scheme :: Chosen(sha1, x, a, scheme) && IdentifiedBy(sha1, b, scheme)
  {
    hide Read, Packed, Fits, ImageId, IdentifiedBytes;
    RepackedReads(sha1, raw, a);
    ReadFits(raw);
    var x, b := Read(raw).value, Rebuilt(sha1, raw, a).value;
    FitsSizes(x);
    var scheme := if a.scheme.Some? then a.scheme.value else DetectScheme(sha1, x).value;
    IdIs(sha1, x, Conditional);
    IdIs(sha1, x, AllSections);
    FitsSizes(b);
    IdIs(sha1, b, scheme);
    assert IdentifiedBy(sha1, b, scheme);
    assert Chosen(sha1, x, a, scheme);
  }

  /** Repacking succeeds exactly when the images read, a scheme is given or found in the base, and the components fit. */
  lemma RepackedIff(sha1: seq<byte> -> Digest, raw: seq<byte>, a: Arguments)
    ensures Repacked(sha1, raw, a).Ok? <==>
      && Read(raw).Ok? && (a.kernelFromImage.Some? ==> Read(a.kernelFromImage.value).Ok?)
      && (exists scheme :: Chosen(sha1, Read(raw).value, a, scheme))
      && (a.kernelFromImage.None? && a.kernel.Some? ==> |a.kernel.value| < 0x1_0000_0000)
      && (a.ramdisk.Some? ==> |a.ramdisk.value| < 0x1_0000_0000)
      && (a.second.Some? ==> |a.second.value| < 0x1_0000_0000) && (a.dt.Some? ==> |a.dt.value| < 0x1_0000_0000)
  {
    hide Read, Packed, Fits, IdOf, IdentifiedBytes;
    if Read(raw).Ok? {
      var x := Read(raw).value;
      ReadFits(raw);
      FitsSizes(x);
      IdIs(sha1, x, Conditional);
      IdIs(sha1, x, AllSections);
      if a.scheme.Some? {
        assert Chosen(sha1, x, a, a.scheme.value);
      } else if DetectScheme(sha1, x).Some? {
        assert Chosen(sha1, x, a, DetectScheme(sha1, x).value);
      }
      if a.kernelFromImage.Some? && Read(a.kernelFromImage.value).Ok? {
        ReadFits(a.kernelFromImage.value);
        FitsSizes(Read(a.kernelFromImage.value).value);
      }
    }
  }

  // ---- Identifiers tell images apart

  lemma LengthBytesDiffer(m: nat, n: nat)
    requires m < WORD_LIMIT && n < WORD_LIMIT && LengthBytes(m) == LengthBytes(n)
    ensures m == n
  {
    var a, b := LengthBytes(m), LengthBytes(n);
    assert a[0] == b[0] && a[1] == b[1] && a[2] == b[2] && a[3] == b[3];
    FourBytes(m);
    FourBytes(n);
  }

  lemma FourBytes(n: nat)
    requires n < WORD_LIMIT
    ensures n == n % 0x100 + 0x100 * (n / 0x100 % 0x100) + 0x1_0000 * (n / 0x1_0000 % 0x100) + 0x100_0000 * (n / 0x100_0000 % 0x100)
  {
    DivideTwice(n, 0x100, 0x100);
    DivideTwice(n, 0x1_0000, 0x100);
  }

  /** A component with its length behind it can be read off the end. */
  lemma LastComponent(a: seq<byte>, x: seq<byte>, b: seq<byte>, y: seq<byte>)
    requires |x| < WORD_LIMIT && |y| < WORD_LIMIT
    requires a + (x + LengthBytes(|x|)) == b + (y + LengthBytes(|y|))
    ensures a == b && x == y
  {
    hide LengthBytes;
    var lx, ly := LengthBytes(|x|), LengthBytes(|y|);
    LengthBytesAre(|x|);
    LengthBytesAre(|y|);
    var s, t := a + (x + lx), b + (y + ly);
    assert s[|s| - 4..] == lx && t[|t| - 4..] == ly;
    LengthBytesDiffer(|x|, |y|);
    assert s[..|a|] == a && t[..|b|] == b && s[|a|..|s| - 4] == x && t[|b|..|t| - 4] == y;
  }

  lemma LengthBytesAre(n: nat)
    ensures |LengthBytes(n)| == 4
  {
  }

  function ThreeOf(b: BootImage): seq<byte> {
    b.kernel + LengthBytes(|b.kernel|) + (b.ramdisk + LengthBytes(|b.ramdisk|)) + (b.second + LengthBytes(|b.second|))
  }

  ghost predicate SameComponents(a: BootImage, b: BootImage) {
    a.kernel == b.kernel && a.ramdisk == b.ramdisk && a.second == b.second && a.dt == b.dt
  }

  lemma ThreeDiffer(a: BootImage, b: BootImage)
    requires SizesFit(a) && SizesFit(b) && ThreeOf(a) == ThreeOf(b)
    ensures a.kernel == b.kernel && a.ramdisk == b.ramdisk && a.second == b.second
  {
    hide LengthBytes;
    var k, l := a.kernel + LengthBytes(|a.kernel|), b.kernel + LengthBytes(|b.kernel|);
    LastComponent(k + (a.ramdisk + LengthBytes(|a.ramdisk|)), a.second, l + (b.ramdisk + LengthBytes(|b.ramdisk|)), b.second);
    LastComponent(k, a.ramdisk, l, b.ramdisk);
    assert [] + k == k && [] + l == l;
    LastComponent([], a.kernel, [], b.kernel);
  }

  /** Four components are never three others. */
  lemma FourAreNotThree(a: BootImage, b: BootImage)
    requires SizesFit(a) && SizesFit(b)
    ensures ThreeOf(a) + (a.dt + LengthBytes(|a.dt|)) != ThreeOf(b)
  {
    hide LengthBytes;
    if ThreeOf(a) + (a.dt + LengthBytes(|a.dt|)) == ThreeOf(b) {
      var k, l := a.kernel + LengthBytes(|a.kernel|), b.kernel + LengthBytes(|b.kernel|);
      LengthBytesAre(|a.kernel|);
      LastComponent(ThreeOf(a), a.dt, l + (b.ramdisk + LengthBytes(|b.ramdisk|)), b.second);
      LastComponent(k + (a.ramdisk + LengthBytes(|a.ramdisk|)), a.second, l, b.ramdisk);
      assert [] + l == l;
      LastComponent(k, a.ramdisk, [], b.kernel);
      assert false;
    }
  }

  lemma BytesDiffer(a: BootImage, b: BootImage, scheme: Scheme)
    requires SizesFit(a) && SizesFit(b) && IdentifiedBytes(a, scheme) == IdentifiedBytes(b, scheme)
    ensures SameComponents(a, b)
  {
    hide LengthBytes, ThreeOf;
    IdentifiedParts(a, scheme);
    IdentifiedParts(b, scheme);
    var left, right := a.dt == [] && scheme == Conditional, b.dt == [] && scheme == Conditional;
    if !left && !right {
      LastComponent(ThreeOf(a), a.dt, ThreeOf(b), b.dt);
      ThreeDiffer(a, b);
    } else if left && right {
      ThreeDiffer(a, b);
    } else if right {
      FourAreNotThree(a, b);
    } else {
      FourAreNotThree(b, a);
    }
  }

  lemma IdentifiedParts(b: BootImage, scheme: Scheme)
    ensures IdentifiedBytes(b, scheme)
      == if b.dt == [] && scheme == Conditional then ThreeOf(b) else ThreeOf(b) + (b.dt + LengthBytes(|b.dt|))
  {
    assert ThreeOf(b) + [] == ThreeOf(b);
  }

  ghost predicate NoCollisions(sha1: seq<byte> -> Digest) {
    forall s, t :: sha1(s) == sha1(t) ==> s == t
  }

  /** Where the digest has no collisions, two identifiers of one scheme are equal exactly when all four components are. */
  lemma IdentifiersDiffer(sha1: seq<byte> -> Digest, a: BootImage, b: BootImage, scheme: Scheme)
    requires SizesFit(a) && SizesFit(b) && NoCollisions(sha1)
    ensures IdOf(sha1, a, scheme) == IdOf(sha1, b, scheme) <==> SameComponents(a, b)
  {
    hide ImageId, IdentifiedBytes;
    IdIs(sha1, a, scheme);
    IdIs(sha1, b, scheme);
    if IdOf(sha1, a, scheme) == IdOf(sha1, b, scheme) {
      var x, y := sha1(IdentifiedBytes(a, scheme)), sha1(IdentifiedBytes(b, scheme));
      assert IdOf(sha1, a, scheme)[..20] == x && IdOf(sha1, b, scheme)[..20] == y;
      BytesDiffer(a, b, scheme);
    }
  }
}
