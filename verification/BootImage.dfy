/** Classic Android boot images: `tools/repack-android-boot-image.py` and the two readers beside it. */
module BootImage {
  import opened Arithmetic
  import opened Bytes

  const BOOT_MAGIC: seq<byte> := [0x41, 0x4E, 0x44, 0x52, 0x4F, 0x49, 0x44, 0x21]
  const HEADER_SIZE := 1632

  datatype BootImage = BootImage(
    kernel: seq<byte>, ramdisk: seq<byte>, second: seq<byte>, dt: seq<byte>,
    kernelAddr: nat, ramdiskAddr: nat, secondAddr: nat, tagsAddr: nat, pageSize: nat, osVersion: nat,
    name: seq<byte>, cmdline: seq<byte>, imageId: seq<byte>, extraCmdline: seq<byte>)

  datatype ReadError = TruncatedHeader | BadMagic | BadPageSize | TruncatedPayload

  // ---- Page sizes

  /** Bitwise and, bit by bit. */
  function BitAnd(a: nat, b: nat): nat {
    if a == 0 || b == 0 then 0 else (if a % 2 == 1 && b % 2 == 1 then 1 else 0) + 2 * BitAnd(a / 2, b / 2)
  }

  function Power2(k: nat): (p: nat)
    ensures p > 0
  {
    if k == 0 then 1 else 2 * Power2(k - 1)
  }

  /** At least a header, and no bit in common with the number below. */
  predicate ValidPageSize(page: nat) { page >= HEADER_SIZE && BitAnd(page, page - 1) == 0 }

  lemma {:induction false} BitAndPredecessor(p: nat)
    requires p > 0
    ensures BitAnd(p, p - 1) == 0 <==> exists k: nat :: p == Power2(k)
  {
    if p == 1 {
      assert 1 == Power2(0);
    } else if p % 2 == 1 {
      BitAndSelf(p / 2);
      assert (p - 1) / 2 == p / 2 && (p - 1) % 2 == 0;
      assert forall k: nat :: p != Power2(k);
    } else {
      BitAndPredecessor(p / 2);
      assert (p - 1) / 2 == p / 2 - 1;
      assert BitAnd(p, p - 1) == 2 * BitAnd(p / 2, p / 2 - 1);
      PowerHalves(p);
    }
  }

  lemma PowerHalves(p: nat)
    requires p > 0 && p % 2 == 0
    ensures (exists k: nat :: p == Power2(k)) <==> (exists k: nat :: p / 2 == Power2(k))
  {
    if k: nat :| p / 2 == Power2(k) {
      assert p == Power2(k + 1);
    }
    if k: nat :| p == Power2(k) {
      assert p / 2 == Power2(k - 1);
    }
  }

  lemma {:induction false} BitAndSelf(p: nat)
    ensures BitAnd(p, p) == p
  {
    if p > 0 {
      BitAndSelf(p / 2);
    }
  }

  /** The guard on page sizes accepts exactly the powers of two that can hold a header. */
  lemma ValidPageSizeIff(page: nat)
    ensures ValidPageSize(page) <==> page >= HEADER_SIZE && exists k: nat :: page == Power2(k)
  {
    if page >= HEADER_SIZE {
      BitAndPredecessor(page);
    }
  }

  // ---- Header

  function PackWords(words: seq<nat>): (s: seq<byte>)
    requires forall i :: 0 <= i < |words| ==> words[i] < WORD_LIMIT
    ensures |s| == 4 * |words|
  {
    if words == [] then [] else Le32(words[0]) + PackWords(words[1..])
  }

  function UnpackWords(s: seq<byte>): (words: seq<nat>)
    requires |s| % 4 == 0
    ensures |words| == |s| / 4
    ensures forall i :: 0 <= i < |words| ==> words[i] < WORD_LIMIT
    ensures PackWords(words) == s
  {
    if s == [] then []
    else
      var rest := UnpackWords(s[4..]);
      assert ([FromLe32(s[..4])] + rest)[1..] == rest && s == s[..4] + s[4..];
      [FromLe32(s[..4])] + rest
  }

  lemma {:induction false} UnpackPackWords(words: seq<nat>)
    requires forall i :: 0 <= i < |words| ==> words[i] < WORD_LIMIT
    ensures UnpackWords(PackWords(words)) == words
  {
    if words != [] {
      hide Le32, FromLe32;
      var s := PackWords(words);
      assert s[..4] == Le32(words[0]) && s[4..] == PackWords(words[1..]);
      FromLe32OfLe32(words[0]);
      UnpackPackWords(words[1..]);
      assert words == [words[0]] + words[1..];
    }
  }

  function HeaderWords(b: BootImage): (words: seq<nat>)
    ensures |words| == 10
  {
    [|b.kernel|, b.kernelAddr, |b.ramdisk|, b.ramdiskAddr, |b.second|, b.secondAddr, b.tagsAddr,
     b.pageSize, |b.dt|, b.osVersion]
  }

  predicate WordsFit(words: seq<nat>) { forall i :: 0 <= i < |words| ==> words[i] < WORD_LIMIT }

  /** What `struct.pack` needs, with the page size that reading demands and text fields of their full width. */
  predicate Fits(b: BootImage) {
    && WordsFit(HeaderWords(b)) && ValidPageSize(b.pageSize)
    && |b.name| == 16 && |b.cmdline| == 512 && |b.imageId| == 32 && |b.extraCmdline| == 1024
  }

  function Header(b: BootImage): (s: seq<byte>)
    requires Fits(b)
    ensures |s| == HEADER_SIZE
  {
    BOOT_MAGIC + PackWords(HeaderWords(b)) + b.name + b.cmdline + b.imageId + b.extraCmdline
  }

  function Pad(value: seq<byte>, alignment: nat): (s: seq<byte>)
    requires alignment > 0
    ensures |s| == Align(|value|, alignment)
  {
    value + Zeros(Align(|value|, alignment) - |value|)
  }

  /** The image `main` writes: five padded sections. */
  function Packed(b: BootImage): seq<byte>
    requires Fits(b)
  {
    var page := b.pageSize;
    Pad(Header(b), page) + Pad(b.kernel, page) + Pad(b.ramdisk, page) + Pad(b.second, page) + Pad(b.dt, page)
  }

  /** Where the sections start, and where the last one ends. */
  datatype Layout = Layout(kernel: nat, ramdisk: nat, second: nat, dt: nat, end: nat)

  function LayoutOf(page: nat, kernelSize: nat, ramdiskSize: nat, secondSize: nat, dtSize: nat): (l: Layout)
    requires page > 0
    ensures l.kernel == page
    ensures l.kernel + kernelSize <= l.ramdisk && l.ramdisk + ramdiskSize <= l.second
    ensures l.second + secondSize <= l.dt && l.dt + dtSize <= l.end
  {
    var ramdisk := page + Align(kernelSize, page);
    var second := ramdisk + Align(ramdiskSize, page);
    var dt := second + Align(secondSize, page);
    Layout(page, ramdisk, second, dt, dt + Align(dtSize, page))
  }

  function WordsOf(raw: seq<byte>): (words: seq<nat>)
    requires |raw| >= HEADER_SIZE
    ensures |words| == 10 && WordsFit(words)
  {
    UnpackWords(raw[8..48])
  }

  /** `BootImage.read`. */
  function Read(raw: seq<byte>): Result<BootImage, ReadError> {
    if |raw| < HEADER_SIZE then Err(TruncatedHeader)
    else if raw[..8] != BOOT_MAGIC then Err(BadMagic)
    else
      var w := WordsOf(raw);
      if !ValidPageSize(w[7]) then Err(BadPageSize)
      else
        var l := LayoutOf(w[7], w[0], w[2], w[4], w[8]);
        if l.end > |raw| then Err(TruncatedPayload) else Ok(ImageAt(raw, w, l))
  }

  /** The image whose header words are `w` and whose sections lie at `l`. */
  function ImageAt(raw: seq<byte>, w: seq<nat>, l: Layout): BootImage
    requires |w| == 10 && HEADER_SIZE <= |raw|
    requires l.kernel + w[0] <= |raw| && l.ramdisk + w[2] <= |raw| && l.second + w[4] <= |raw| && l.dt + w[8] <= |raw|
  {
    BootImage(
      raw[l.kernel..l.kernel + w[0]], raw[l.ramdisk..l.ramdisk + w[2]],
      raw[l.second..l.second + w[4]], raw[l.dt..l.dt + w[8]],
      w[1], w[3], w[5], w[6], w[7], w[9],
      raw[48..64], raw[64..576], raw[576..608], raw[608..1632])
  }

  function ImageLayout(b: BootImage): Layout
    requires b.pageSize > 0
  {
    LayoutOf(b.pageSize, |b.kernel|, |b.ramdisk|, |b.second|, |b.dt|)
  }

  // ---- Reading what was packed

  lemma OnePage(n: nat, page: nat)
    requires 0 < n <= page
    ensures Align(n, page) == page
  {
    QuotientIs(n + page - 1, page, 1, n - 1);
  }

  lemma HeaderParts(b: BootImage)
    requires Fits(b)
    ensures var h := Header(b);
      && h[..8] == BOOT_MAGIC && h[8..48] == PackWords(HeaderWords(b))
      && h[48..64] == b.name && h[64..576] == b.cmdline && h[576..608] == b.imageId && h[608..1632] == b.extraCmdline
  {
    hide PackWords, HeaderWords;
  }

  /** The bytes of the sections of a packed image. */
  lemma PackedParts(b: BootImage)
    requires Fits(b)
    ensures var s, l := Packed(b), ImageLayout(b);
      && |s| == l.end
      && s[..HEADER_SIZE] == Header(b) && AllZero(s[HEADER_SIZE..l.kernel])
      && s[l.kernel..l.ramdisk] == Pad(b.kernel, b.pageSize)
      && s[l.ramdisk..l.second] == Pad(b.ramdisk, b.pageSize)
      && s[l.second..l.dt] == Pad(b.second, b.pageSize)
      && s[l.dt..l.end] == Pad(b.dt, b.pageSize)
  {
    hide Header, Align, WordsFit;
    OnePage(HEADER_SIZE, b.pageSize);
  }

  /** A section that is padded in `s` starts with its bytes. */
  lemma Section(s: seq<byte>, lo: nat, hi: nat, value: seq<byte>, page: nat)
    requires page > 0 && lo <= hi <= |s| && s[lo..hi] == Pad(value, page)
    ensures lo + |value| <= hi && s[lo..lo + |value|] == value
  {
    hide Align;
    SliceOfSlice(s, lo, hi, 0, |value|);
    assert Pad(value, page)[..|value|] == value;
  }

  lemma HeaderIn(s: seq<byte>, b: BootImage)
    requires Fits(b) && |s| >= HEADER_SIZE && s[..HEADER_SIZE] == Header(b)
    ensures s[..8] == BOOT_MAGIC && WordsOf(s) == HeaderWords(b)
    ensures s[48..64] == b.name && s[64..576] == b.cmdline && s[576..608] == b.imageId && s[608..1632] == b.extraCmdline
  {
    hide Header, PackWords, UnpackWords, HeaderWords;
    HeaderParts(b);
    SliceOfSlice(s, 0, HEADER_SIZE, 0, 8);
    SliceOfSlice(s, 0, HEADER_SIZE, 8, 48);
    SliceOfSlice(s, 0, HEADER_SIZE, 48, 64);
    SliceOfSlice(s, 0, HEADER_SIZE, 64, 576);
    SliceOfSlice(s, 0, HEADER_SIZE, 576, 608);
    SliceOfSlice(s, 0, HEADER_SIZE, 608, 1632);
    UnpackPackWords(HeaderWords(b));
  }

  lemma SectionsIn(s: seq<byte>, b: BootImage, l: Layout)
    requires Fits(b) && s == Packed(b) && l == ImageLayout(b)
    ensures l.kernel <= l.ramdisk <= l.second <= l.dt <= l.end == |s| && |s| >= HEADER_SIZE
    ensures l.kernel + |b.kernel| <= |s| && s[l.kernel..l.kernel + |b.kernel|] == b.kernel
    ensures l.ramdisk + |b.ramdisk| <= |s| && s[l.ramdisk..l.ramdisk + |b.ramdisk|] == b.ramdisk
    ensures l.second + |b.second| <= |s| && s[l.second..l.second + |b.second|] == b.second
    ensures l.dt + |b.dt| <= |s| && s[l.dt..l.dt + |b.dt|] == b.dt
    ensures s[..HEADER_SIZE] == Header(b)
  {
    hide Packed, Header, Pad, Align, WordsFit;
    PackedParts(b);
    Section(s, l.kernel, l.ramdisk, b.kernel, b.pageSize);
    Section(s, l.ramdisk, l.second, b.ramdisk, b.pageSize);
    Section(s, l.second, l.dt, b.second, b.pageSize);
    Section(s, l.dt, l.end, b.dt, b.pageSize);
  }

  /** Reading a packed image gives back its four components and every header field. */
  lemma ReadPacked(b: BootImage)
    requires Fits(b)
    ensures Read(Packed(b)) == Ok(b)
  {
    var s, l := Packed(b), ImageLayout(b);
    hide Packed, Header, Pad, Align, WordsOf, ValidPageSize, LayoutOf, WordsFit;
    SectionsIn(s, b, l);
    HeaderIn(s, b);
    assert ImageAt(s, HeaderWords(b), l) == b;
  }

  // ---- Packing what was read

  /** Padding, header page included, is zero and nothing follows the last section. */
  predicate CleanImage(raw: seq<byte>)
    requires Read(raw).Ok?
  {
    var b := Read(raw).value;
    var l := ImageLayout(b);
    && |raw| == l.end
    && AllZero(raw[HEADER_SIZE..l.kernel])
    && AllZero(raw[l.kernel + |b.kernel|..l.ramdisk])
    && AllZero(raw[l.ramdisk + |b.ramdisk|..l.second])
    && AllZero(raw[l.second + |b.second|..l.dt])
    && AllZero(raw[l.dt + |b.dt|..])
  }

  /** An image that was read can be packed again, and its header prints back. */
  lemma ReadFits(raw: seq<byte>)
    requires Read(raw).Ok?
    ensures Fits(Read(raw).value)
    ensures Header(Read(raw).value) == raw[..HEADER_SIZE]
  {
    hide ValidPageSize, UnpackWords, PackWords, LayoutOf;
    var b := Read(raw).value;
    var w := WordsOf(raw);
    assert HeaderWords(b) == w by {
      assert w == [w[0], w[1], w[2], w[3], w[4], w[5], w[6], w[7], w[8], w[9]];
    }
    assert PackWords(w) == raw[8..48];
    Extend(raw, 8, 48);
    Extend(raw, 48, 64);
    Extend(raw, 64, 576);
    Extend(raw, 576, 608);
    Extend(raw, 608, 1632);
  }

  lemma Extend<T>(s: seq<T>, i: nat, j: nat)
    requires i <= j <= |s|
    ensures s[..i] + s[i..j] == s[..j]
  {
  }

  lemma PaddedSection(raw: seq<byte>, lo: nat, hi: nat, value: seq<byte>, page: nat)
    requires page > 0 && hi <= |raw| && lo + |value| <= hi && raw[lo..lo + |value|] == value
    requires hi - lo == Align(|value|, page)
    ensures raw[lo..hi] == Pad(value, page) <==> AllZero(raw[lo + |value|..hi])
  {
    hide Align;
    assert raw[lo..hi] == raw[lo..lo + |value|] + raw[lo + |value|..hi];
    AllZeroIsZeros(raw[lo + |value|..hi]);
    var zeros := Zeros(hi - lo - |value|);
    assert Pad(value, page) == value + zeros;
    if raw[lo..hi] == value + zeros {
      assert raw[lo + |value|..hi] == (value + zeros)[|value|..];
    }
  }

  /** Packing an image that was read gives its bytes back exactly when the image is clean. */
  lemma PackedReadIff(raw: seq<byte>)
    requires Read(raw).Ok?
    ensures Fits(Read(raw).value)
    ensures Packed(Read(raw).value) == raw <==> CleanImage(raw)
  {
    hide Read, Packed, Header, Pad, Align, LayoutOf, Fits;
    var b := Read(raw).value;
    ReadFits(raw);
    ReadSections(raw);
    PackedParts(b);
    var s, l := Packed(b), ImageLayout(b);
    PaddedSection(raw, l.kernel, l.ramdisk, b.kernel, b.pageSize);
    PaddedSection(raw, l.ramdisk, l.second, b.ramdisk, b.pageSize);
    PaddedSection(raw, l.second, l.dt, b.second, b.pageSize);
    PaddedSection(raw, l.dt, l.end, b.dt, b.pageSize);
    if |raw| == l.end {
      assert raw[l.dt + |b.dt|..] == raw[l.dt + |b.dt|..l.end];
      EqualToZeros(raw[HEADER_SIZE..l.kernel], s[HEADER_SIZE..l.kernel]);
      SplitSix(raw, s, HEADER_SIZE, l);
    }
  }

  lemma ReadSections(raw: seq<byte>)
    requires Read(raw).Ok?
    ensures var b := Read(raw).value;
      && b.pageSize >= HEADER_SIZE
      && var l := ImageLayout(b);
      && l.end <= |raw|
      && l.kernel == b.pageSize
      && l.ramdisk - l.kernel == Align(|b.kernel|, b.pageSize) && l.second - l.ramdisk == Align(|b.ramdisk|, b.pageSize)
      && l.dt - l.second == Align(|b.second|, b.pageSize) && l.end - l.dt == Align(|b.dt|, b.pageSize)
      && raw[l.kernel..l.kernel + |b.kernel|] == b.kernel && raw[l.ramdisk..l.ramdisk + |b.ramdisk|] == b.ramdisk
      && raw[l.second..l.second + |b.second|] == b.second && raw[l.dt..l.dt + |b.dt|] == b.dt
  {
    hide WordsOf, Align;
    var w := WordsOf(raw);
    assert |Read(raw).value.kernel| == w[0] && |Read(raw).value.ramdisk| == w[2];
    assert |Read(raw).value.second| == w[4] && |Read(raw).value.dt| == w[8];
  }

  /** Two images of one layout are equal exactly when they agree on the header and on every section. */
  lemma SplitSix(a: seq<byte>, b: seq<byte>, header: nat, l: Layout)
    requires |a| == |b| == l.end && header <= l.kernel <= l.ramdisk <= l.second <= l.dt <= l.end
    ensures a == b <==>
      && a[..header] == b[..header] && a[header..l.kernel] == b[header..l.kernel]
      && a[l.kernel..l.ramdisk] == b[l.kernel..l.ramdisk] && a[l.ramdisk..l.second] == b[l.ramdisk..l.second]
      && a[l.second..l.dt] == b[l.second..l.dt] && a[l.dt..l.end] == b[l.dt..l.end]
  {
    assert a == a[..header] + a[header..l.kernel] + a[l.kernel..l.ramdisk] + a[l.ramdisk..l.second] + a[l.second..l.dt] + a[l.dt..l.end];
    assert b == b[..header] + b[header..l.kernel] + b[l.kernel..l.ramdisk] + b[l.ramdisk..l.second] + b[l.second..l.dt] + b[l.dt..l.end];
  }

  // ---- Image identifiers and repacking

  datatype Scheme = Conditional | AllSections

  type Digest = d: seq<byte> | |d| == 20 witness Zeros(20)

  /** A component and its length, as they are fed to the digest. */
  function Tagged(payload: seq<byte>): seq<byte>
    requires |payload| < WORD_LIMIT
  {
    payload + Le32(|payload|)
  }

  /** `boot_image_id`, for any hash of twenty bytes. */
  function ImageId(sha1: seq<byte> -> Digest, kernel: seq<byte>, ramdisk: seq<byte>, second: seq<byte>, dt: seq<byte>,
                   scheme: Scheme): (id: seq<byte>)
    requires |kernel| < WORD_LIMIT && |ramdisk| < WORD_LIMIT && |second| < WORD_LIMIT && |dt| < WORD_LIMIT
    ensures |id| == 32
  {
    var three := Tagged(kernel) + Tagged(ramdisk) + Tagged(second);
    sha1(if dt != [] || scheme == AllSections then three + Tagged(dt) else three) + Zeros(12)
  }

  predicate SizesFit(b: BootImage) {
    |b.kernel| < WORD_LIMIT && |b.ramdisk| < WORD_LIMIT && |b.second| < WORD_LIMIT && |b.dt| < WORD_LIMIT
  }

  function IdOf(sha1: seq<byte> -> Digest, b: BootImage, scheme: Scheme): seq<byte>
    requires SizesFit(b)
  {
    ImageId(sha1, b.kernel, b.ramdisk, b.second, b.dt, scheme)
  }

  /** `detect_image_id_scheme`: the first scheme whose identifier the image carries. */
  function DetectScheme(sha1: seq<byte> -> Digest, b: BootImage): Option<Scheme>
    requires SizesFit(b)
  {
    if b.imageId == IdOf(sha1, b, Conditional) then Some(Conditional)
    else if b.imageId == IdOf(sha1, b, AllSections) then Some(AllSections)
    else None
  }

  /** The command line: replacement bytes, or another image to take the kernel from, and a scheme unless `auto`. */
  datatype Arguments = Arguments(
    kernel: Option<seq<byte>>, kernelFromImage: Option<seq<byte>>,
    ramdisk: Option<seq<byte>>, second: Option<seq<byte>>, dt: Option<seq<byte>>, scheme: Option<Scheme>)

  datatype RepackError = Unreadable(e: ReadError) | UnknownScheme | TooLarge

  function OrElse<T>(o: Option<T>, other: T): T {
    if o.Some? then o.value else other
  }

  function ChosenKernel(a: Arguments, base: BootImage): Result<seq<byte>, RepackError> {
    if a.kernelFromImage.None? then Ok(OrElse(a.kernel, base.kernel))
    else
      var other := Read(a.kernelFromImage.value);
      if other.Err? then Err(Unreadable(other.error)) else Ok(other.value.kernel)
  }

  /** The base with its components replaced. */
  function WithComponents(base: BootImage, kernel: seq<byte>, a: Arguments): BootImage {
    base.(kernel := kernel, ramdisk := OrElse(a.ramdisk, base.ramdisk),
          second := OrElse(a.second, base.second), dt := OrElse(a.dt, base.dt))
  }

  /** The image that `main` packs: components chosen, then stamped with the identifier of the scheme. */
  function Rebuilt(sha1: seq<byte> -> Digest, raw: seq<byte>, a: Arguments): (r: Result<BootImage, RepackError>)
    ensures r.Ok? ==> Fits(r.value)
  {
    var base := Read(raw);
    if base.Err? then Err(Unreadable(base.error)) else
    ReadFits(raw);
    FitsSizes(base.value);
    var kernel := ChosenKernel(a, base.value);
    if kernel.Err? then Err(kernel.error) else
    var scheme := if a.scheme.Some? then a.scheme else DetectScheme(sha1, base.value);
    if scheme.None? then Err(UnknownScheme) else
    var b := WithComponents(base.value, kernel.value, a);
    if !SizesFit(b) then Err(TooLarge)
    else
      StampedFits(base.value, b, IdOf(sha1, b, scheme.value));
      Ok(b.(imageId := IdOf(sha1, b, scheme.value)))
  }

  /** `main` of the repacker: the bytes of the output image. */
  function Repacked(sha1: seq<byte> -> Digest, raw: seq<byte>, a: Arguments): Result<seq<byte>, RepackError> {
    var b := Rebuilt(sha1, raw, a);
    if b.Err? then Err(b.error) else Ok(Packed(b.value))
  }

  lemma FitsSizes(b: BootImage)
    requires Fits(b)
    ensures SizesFit(b)
  {
    var w := HeaderWords(b);
    assert w[0] < WORD_LIMIT && w[2] < WORD_LIMIT && w[4] < WORD_LIMIT && w[8] < WORD_LIMIT;
  }

  lemma StampedFits(base: BootImage, b: BootImage, id: seq<byte>)
    requires Fits(base) && SizesFit(b) && |id| == 32
    requires b == base.(kernel := b.kernel, ramdisk := b.ramdisk, second := b.second, dt := b.dt)
    ensures Fits(b.(imageId := id))
  {
    var w, v := HeaderWords(base), HeaderWords(b.(imageId := id));
    assert v[0] < WORD_LIMIT && v[2] < WORD_LIMIT && v[4] < WORD_LIMIT && v[8] < WORD_LIMIT;
    assert v[1] == w[1] && v[3] == w[3] && v[5] == w[5] && v[6] == w[6] && v[7] == w[7] && v[9] == w[9];
  }

  /** Reading the output gives the chosen components, the base fields and the stamped identifier. */
  lemma RepackedReads(sha1: seq<byte> -> Digest, raw: seq<byte>, a: Arguments)
    requires Repacked(sha1, raw, a).Ok?
    ensures Rebuilt(sha1, raw, a).Ok?
    ensures Read(Repacked(sha1, raw, a).value) == Ok(Rebuilt(sha1, raw, a).value)
  {
    hide Read, Rebuilt, Packed;
    ReadPacked(Rebuilt(sha1, raw, a).value);
  }

  const AUTO := Arguments(None, None, None, None, None, None)

  /** With nothing replaced and the scheme detected, the rebuilt image is the image that was read. */
  lemma AutoRebuildsTheSame(sha1: seq<byte> -> Digest, raw: seq<byte>)
    ensures Rebuilt(sha1, raw, AUTO).Ok? <==>
      Read(raw).Ok? && (ReadFits(raw); FitsSizes(Read(raw).value); DetectScheme(sha1, Read(raw).value).Some?)
    ensures Rebuilt(sha1, raw, AUTO).Ok? ==> Rebuilt(sha1, raw, AUTO).value == Read(raw).value
  {
    hide Read, Fits, ImageId;
    if Read(raw).Ok? {
      var base := Read(raw).value;
      ReadFits(raw);
      FitsSizes(base);
      assert WithComponents(base, base.kernel, AUTO) == base;
    }
  }

  /** Repacking without replacements is idempotent. */
  lemma RepackIdempotent(sha1: seq<byte> -> Digest, raw: seq<byte>)
    requires Repacked(sha1, raw, AUTO).Ok?
    ensures Repacked(sha1, Repacked(sha1, raw, AUTO).value, AUTO) == Repacked(sha1, raw, AUTO)
  {
    hide Read, Rebuilt, Packed, DetectScheme;
    var out := Repacked(sha1, raw, AUTO).value;
    RepackedReads(sha1, raw, AUTO);
    AutoRebuildsTheSame(sha1, raw);
    AutoRebuildsTheSame(sha1, out);
  }

  /** Repacking without replacements returns its input exactly when padding is zero and nothing trails. */
  lemma RepackIdentityIff(sha1: seq<byte> -> Digest, raw: seq<byte>)
    requires Repacked(sha1, raw, AUTO).Ok?
    ensures Read(raw).Ok?
    ensures Repacked(sha1, raw, AUTO).value == raw <==> CleanImage(raw)
  {
    hide Read, Rebuilt, Packed, DetectScheme, CleanImage;
    AutoRebuildsTheSame(sha1, raw);
    PackedReadIff(raw);
  }

  /** The identifier of an output is recognised again, as the scheme it was made with unless the two schemes agree on it. */
  lemma OutputSchemeDetected(sha1: seq<byte> -> Digest, raw: seq<byte>, a: Arguments, scheme: Scheme)
    requires a.scheme == Some(scheme) && Repacked(sha1, raw, a).Ok?
    ensures var b := Rebuilt(sha1, raw, a).value;
      SizesFit(b) &&
      DetectScheme(sha1, b) == if IdOf(sha1, b, Conditional) == IdOf(sha1, b, scheme) then Some(Conditional) else Some(scheme)
    ensures Rebuilt(sha1, raw, a).value.dt != [] ==>
      (FitsSizes(Rebuilt(sha1, raw, a).value); DetectScheme(sha1, Rebuilt(sha1, raw, a).value) == Some(Conditional))
  {
    hide Read, Fits;
    FitsSizes(Rebuilt(sha1, raw, a).value);
  }

  // ---- The readers beside the repacker

  /** `ramdisk_from_boot_image` of the ramdisk rewriter, which checks no more than it needs. */
  function RamdiskFrom(raw: seq<byte>): Result<seq<byte>, ReadError> {
    if |raw| < HEADER_SIZE then Err(TruncatedHeader)
    else if raw[..8] != BOOT_MAGIC then Err(BadMagic)
    else
      var w := WordsOf(raw);
      if !ValidPageSize(w[7]) then Err(BadPageSize)
      else
        var offset := w[7] + Align(w[0], w[7]);
        if offset + w[2] > |raw| then Err(TruncatedPayload) else Ok(raw[offset..offset + w[2]])
  }

  /** Both readers find the same ramdisk; the rewriter refuses only what the repacker refuses too. */
  lemma RamdiskReadersAgree(raw: seq<byte>)
    requires Read(raw).Ok?
    ensures RamdiskFrom(raw) == Ok(Read(raw).value.ramdisk)
  {
    hide WordsOf, Align, ValidPageSize;
  }

  /** The offsets that the inspector computes, which lets a header take several small pages. */
  function InspectorLayout(page: nat, kernelSize: nat, ramdiskSize: nat, secondSize: nat, dtSize: nat): Layout
    requires page > 0
  {
    var kernel := Align(HEADER_SIZE, page);
    var ramdisk := Align(HEADER_SIZE, page) + Align(kernelSize, page);
    var second := ramdisk + Align(ramdiskSize, page);
    var dt := second + Align(secondSize, page);
    Layout(kernel, ramdisk, second, dt,
           Align(HEADER_SIZE, page) + Align(kernelSize, page) + Align(ramdiskSize, page) + Align(secondSize, page) + Align(dtSize, page))
  }

  /** Inspector and repacker lay an image out alike exactly when a page holds the header. */
  lemma LayoutsAgreeIff(page: nat, kernelSize: nat, ramdiskSize: nat, secondSize: nat, dtSize: nat)
    requires page > 0
    ensures InspectorLayout(page, kernelSize, ramdiskSize, secondSize, dtSize)
         == LayoutOf(page, kernelSize, ramdiskSize, secondSize, dtSize)
       <==> page >= HEADER_SIZE
  {
    hide Align;
    if page >= HEADER_SIZE {
      OnePage(HEADER_SIZE, page);
    }
  }

  /** The inspector's own test of a page size. */
  predicate InspectorAccepts(page: nat) { page >= 512 && BitAnd(page, page - 1) == 0 }

  lemma {:induction false} PowerGrows(j: nat, k: nat)
    requires j <= k
    ensures Power2(j) <= Power2(k)
  {
    if j < k {
      PowerGrows(j, k - 1);
    }
  }

  lemma PowersNear(k: nat)
    ensures 512 <= Power2(k) < HEADER_SIZE <==> k == 9 || k == 10
    ensures Power2(9) == 512 && Power2(10) == 1024
  {
    assert Power2(4) == 16;
    assert Power2(8) == 256;
    assert Power2(9) == 512 && Power2(10) == 1024 && Power2(11) == 2048;
    if k < 9 {
      PowerGrows(k, 8);
    } else if k > 10 {
      PowerGrows(11, k);
    }
  }

  /** The images on which the layouts differ and the inspector does not object: pages of 512 and of 1024 bytes. */
  lemma InspectorAcceptsMore(page: nat)
    ensures ValidPageSize(page) ==> InspectorAccepts(page)
    ensures InspectorAccepts(page) && !ValidPageSize(page) <==> page == 512 || page == 1024
  {
    PowersNear(9);
    PowersNear(10);
    if page >= 512 {
      BitAndPredecessor(page);
      if k: nat :| page == Power2(k) {
        PowersNear(k);
      }
    }
  }
}
