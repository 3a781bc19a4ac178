/** Profile photo upload: the dimension bound and the JPEG quality search of
    `compressImage`, and the type check, file name and storage path of `handleFileSelect`.

    The browser's raster primitives are inputs: decoding is an `ImageSource` (read
    failure, decode failure, or the natural size), and `canvas.toBlob` at a quality is
    the oracle `encode`, which gives the blob's byte size or `None` for a null blob.
    Qualities are integer hundredths (0.92 is 92). */
module PhotoUpload {
  import opened Seqs
  import opened Text

  const MaxWidth: nat := 800
  const MaxHeight: nat := 800
  const TargetSizeKB: nat := 500
  const MaxSizeKB: nat := 1024
  const StartQuality: int := 92
  const MinQuality: int := 50
  const QualityStep: int := 5
  /** The `quality < 0.8` threshold of the second acceptance test. */
  const HighQuality: int := 80

  datatype Dimensions = Dimensions(width: nat, height: nat)

  function Abs(x: int): nat { if x < 0 then -x else x }

  // ---------------------------------------------------------------------------
  // Dimension bound

  /** Math.round(num / den) for non-negative operands: floor(num / den + 1/2). */
  function RoundDiv(num: nat, den: nat): (r: nat)
    requires den > 0
    ensures 2 * num - den < 2 * r * den <= 2 * num + den
  {
    var q := (2 * num + den) / (2 * den);
    assert (2 * num + den) == q * (2 * den) + (2 * num + den) % (2 * den);
    assert q * (2 * den) == 2 * q * den;
    q
  }

  /** Rounding an exact quotient gives it back. */
  lemma RoundDivExact(k: nat, den: nat)
    requires den > 0
    ensures RoundDiv(k * den, den) == k
  {
    var r := RoundDiv(k * den, den);
    MulMonotone(r + 1, k, den);
    MulMonotone(k + 1, r, den);
  }

  lemma RoundDivAtMost(num: nat, den: nat, k: nat)
    requires den > 0 && num <= k * den
    ensures RoundDiv(num, den) <= k
  {
    MulMonotone(k + 1, RoundDiv(num, den), den);
  }

  /** The width is the constraining side: MaxWidth / width <= MaxHeight / height. */
  predicate WidthConstrains(d: Dimensions) {
    MaxWidth * d.height <= MaxHeight * d.width
  }

  /** Both sides times num / den, each rounded with Math.round. */
  function Scale(d: Dimensions, num: nat, den: nat): Dimensions
    requires den > 0
  {
    Dimensions(RoundDiv(d.width * num, den), RoundDiv(d.height * num, den))
  }

  /** The size `compressImage` draws at: the natural size when it fits in 800x800,
      otherwise both sides times the single ratio min(800 / w, 800 / h), rounded. */
  function FitWithin(d: Dimensions): (r: Dimensions)
    ensures d.width <= MaxWidth && d.height <= MaxHeight ==> r == d
    ensures r.width <= MaxWidth && r.height <= MaxHeight
    ensures r.width <= d.width && r.height <= d.height
    ensures d.width > MaxWidth || d.height > MaxHeight ==>
      if WidthConstrains(d) then r.width == MaxWidth else r.height == MaxHeight
  {
    if d.width > MaxWidth || d.height > MaxHeight then
      if WidthConstrains(d) then
        ScaledByWidth(d); Scale(d, MaxWidth, d.width)
      else
        ScaledByHeight(d); Scale(d, MaxHeight, d.height)
    else d
  }

  /** Scaling keeps the aspect ratio up to rounding: w' / h' differs from w / h by at
      most half a pixel on the longer side (|w' h - h' w| <= max(w, h) / 2). */
  lemma FitWithinKeepsAspect(d: Dimensions)
    ensures 2 * Abs(FitWithin(d).width * d.height - FitWithin(d).height * d.width) <= Max(d.width, d.height)
  {
    if d.width > MaxWidth || d.height > MaxHeight {
      if WidthConstrains(d) {
        ScaledByWidth(d);
      } else {
        ScaledByHeight(d);
      }
    } else {
      assert d.width * d.height == d.height * d.width;
    }
  }

  lemma ScaledByWidth(d: Dimensions)
    requires d.width > MaxWidth || d.height > MaxHeight
    requires WidthConstrains(d)
    ensures d.width > MaxWidth
    ensures Scale(d, MaxWidth, d.width).width == MaxWidth
    ensures Scale(d, MaxWidth, d.width).height <= MaxHeight
    ensures Scale(d, MaxWidth, d.width).height <= d.height
    ensures 2 * Abs(Scale(d, MaxWidth, d.width).width * d.height
                    - Scale(d, MaxWidth, d.width).height * d.width) <= d.width
  {
    var h := RoundDiv(d.height * MaxWidth, d.width);
    RoundDivExact(MaxWidth, d.width);
    assert d.width * MaxWidth == MaxWidth * d.width;
    RoundDivAtMost(d.height * MaxWidth, d.width, MaxHeight);
    MulMonotone(MaxWidth, d.width, d.height);
    RoundDivAtMost(d.height * MaxWidth, d.width, d.height);
  }

  lemma ScaledByHeight(d: Dimensions)
    requires d.width > MaxWidth || d.height > MaxHeight
    requires !WidthConstrains(d)
    ensures d.height > MaxHeight
    ensures Scale(d, MaxHeight, d.height).height == MaxHeight
    ensures Scale(d, MaxHeight, d.height).width <= MaxWidth
    ensures Scale(d, MaxHeight, d.height).width <= d.width
    ensures 2 * Abs(Scale(d, MaxHeight, d.height).width * d.height
                    - Scale(d, MaxHeight, d.height).height * d.width) <= d.height
  {
    var w := RoundDiv(d.width * MaxHeight, d.height);
    RoundDivExact(MaxHeight, d.height);
    assert d.height * MaxHeight == MaxHeight * d.height;
    RoundDivAtMost(d.width * MaxHeight, d.height, MaxWidth);
    MulMonotone(MaxHeight, d.height, d.width);
    RoundDivAtMost(d.width * MaxHeight, d.height, d.width);
  }

  // ---------------------------------------------------------------------------
  // Quality search

  /** The acceptance test of `tryCompress` for a blob of `bytes` bytes made at `quality`
      (sizeKB is bytes / 1024, so sizeKB <= 500 is bytes <= 512000). */
  predicate Accepts(bytes: nat, quality: int) {
    bytes <= TargetSizeKB * 1024
    || quality <= MinQuality
    || (bytes <= MaxSizeKB * 1024 && quality < HighQuality)
  }

  /** How a run of `tryCompress` ends: a blob it resolves with, or a null blob. */
  datatype Encoded = Accepted(quality: int, bytes: nat) | NullBlob(quality: int)

  /** The recursive `tryCompress` callback, first called at `quality`. */
  function TryCompress(encode: int -> Option<nat>, quality: int): Encoded
    decreases quality
  {
    match encode(quality)
    case None => NullBlob(quality)
    case Some(bytes) =>
      if Accepts(bytes, quality) then Accepted(quality, bytes)
      else TryCompress(encode, quality - QualityStep)
  }

  /** The qualities handed to `canvas.toBlob`, in call order. */
  function Attempts(encode: int -> Option<nat>, quality: int): seq<int>
    decreases quality
  {
    match encode(quality)
    case None => [quality]
    case Some(bytes) =>
      if Accepts(bytes, quality) then [quality]
      else [quality] + Attempts(encode, quality - QualityStep)
  }

  /** Each retry lowers the quality by exactly one step; a retry only happens above the floor. */
  lemma {:induction false} QualityLadder(encode: int -> Option<nat>, quality: int)
    ensures |Attempts(encode, quality)| >= 1
    ensures forall i :: 0 <= i < |Attempts(encode, quality)| ==>
      Attempts(encode, quality)[i] == quality - QualityStep * i
    ensures |Attempts(encode, quality)| > 1 ==>
      Attempts(encode, quality)[|Attempts(encode, quality)| - 1] > MinQuality - QualityStep
    decreases quality
  {
    match encode(quality)
    case None =>
    case Some(bytes) =>
      if !Accepts(bytes, quality) {
        QualityLadder(encode, quality - QualityStep);
      }
  }

  /** From 0.92 there are between one and ten encodings, the last at 0.47 or above,
      and the qualities tried strictly decrease. */
  lemma AtMostTenAttempts(encode: int -> Option<nat>)
    ensures 1 <= |Attempts(encode, StartQuality)| <= 10
    ensures Attempts(encode, StartQuality)[0] == StartQuality
    ensures Attempts(encode, StartQuality)[|Attempts(encode, StartQuality)| - 1] >= 47
    ensures forall i, j :: 0 <= i < j < |Attempts(encode, StartQuality)| ==>
      Attempts(encode, StartQuality)[j] < Attempts(encode, StartQuality)[i]
  {
    QualityLadder(encode, StartQuality);
  }

  /** Greedy search: every attempt before the last produced a blob that failed all three
      clauses; the last attempt is the outcome, accepted or null. */
  lemma {:induction false} FirstAcceptableWins(encode: int -> Option<nat>, quality: int)
    ensures var t, e := Attempts(encode, quality), TryCompress(encode, quality);
      && e.quality == t[|t| - 1]
      && (forall i :: 0 <= i < |t| - 1 ==> encode(t[i]).Some? && !Accepts(encode(t[i]).value, t[i]))
      && (e.Accepted? ==> encode(e.quality) == Some(e.bytes) && Accepts(e.bytes, e.quality))
      && (e.NullBlob? ==> encode(e.quality) == None)
    decreases quality
  {
    match encode(quality)
    case None =>
    case Some(bytes) =>
      if !Accepts(bytes, quality) {
        FirstAcceptableWins(encode, quality - QualityStep);
      }
  }

  /** An encoder that never yields a null blob always leads to an accepted candidate. */
  lemma {:induction false} NeverNullAlwaysAccepted(encode: int -> Option<nat>, quality: int)
    requires forall q :: q <= quality ==> encode(q).Some?
    ensures TryCompress(encode, quality).Accepted?
    decreases quality
  {
    assert encode(quality).Some?;
    if !Accepts(encode(quality).value, quality) {
      NeverNullAlwaysAccepted(encode, quality - QualityStep);
    }
  }

  datatype ImageSource = Unreadable | Undecodable | Decoded(natural: Dimensions)
  datatype CompressError = ReadFailed | LoadFailed | NoCanvasContext | EncodeFailed
  datatype Compressed = Compressed(size: Dimensions, quality: int, bytes: nat)
  datatype CompressResult = Done(image: Compressed) | Failed(error: CompressError)

  /** The promise `compressImage` settles: read and decode errors, a missing 2D context,
      then the quality search on the bounded raster. */
  function Compression(source: ImageSource, hasContext: bool, encode: int -> Option<nat>): CompressResult
  {
    match source
    case Unreadable => Failed(ReadFailed)
    case Undecodable => Failed(LoadFailed)
    case Decoded(natural) =>
      if !hasContext then Failed(NoCanvasContext)
      else match TryCompress(encode, StartQuality)
        case NullBlob(_) => Failed(EncodeFailed)
        case Accepted(q, bytes) => Done(Compressed(FitWithin(natural), q, bytes))
  }

  /** `compressImage` with its retry callback unrolled into a loop over `quality`. */
  method CompressImage(source: ImageSource, hasContext: bool, encode: int -> Option<nat>)
    returns (r: CompressResult, encodeCalls: nat)
    ensures r == Compression(source, hasContext, encode)
    ensures encodeCalls == if source.Decoded? && hasContext then |Attempts(encode, StartQuality)| else 0
    ensures encodeCalls <= 10
  {
    encodeCalls := 0;
    match source
    case Unreadable => r := Failed(ReadFailed);
    case Undecodable => r := Failed(LoadFailed);
    case Decoded(natural) =>
      var size := FitWithin(natural);
      if !hasContext {
        r := Failed(NoCanvasContext);
        return;
      }
      AtMostTenAttempts(encode);
      var quality := StartQuality;
      while true
        invariant encodeCalls <= 9
        invariant quality == StartQuality - QualityStep * encodeCalls
        invariant TryCompress(encode, quality) == TryCompress(encode, StartQuality)
        invariant |Attempts(encode, StartQuality)| == encodeCalls + |Attempts(encode, quality)|
        decreases quality
      {
        var blob := encode(quality);
        encodeCalls := encodeCalls + 1;
        if blob.None? {
          r := Failed(EncodeFailed);
          return;
        }
        if Accepts(blob.value, quality) {
          r := Done(Compressed(size, quality, blob.value));
          return;
        }
        quality := quality - QualityStep;
      }
  }

  // ---------------------------------------------------------------------------
  // File selection: type check, `.jpg` name, storage path

  /** `file.type.startsWith('image/')`. */
  predicate IsImageType(mimeType: string) {
    "image/" <= mimeType
  }

  /** Index `i` is where `/\.[^/.]+$/` matches: a dot followed, up to the end, by at least
      one character that is neither `.` nor `/`. */
  predicate IsExtensionDot(name: string, i: int) {
    0 <= i < |name| - 1 && name[i] == '.'
    && forall j :: i < j < |name| ==> name[j] != '.' && name[j] != '/'
  }

  /** Scans `name[..k]` from the right; `name[k..]` holds no dot and no slash. */
  function ScanForDot(name: string, k: nat): (r: Option<nat>)
    requires k <= |name|
    requires forall j :: k <= j < |name| ==> name[j] != '.' && name[j] != '/'
    ensures r.Some? ==> IsExtensionDot(name, r.value)
    ensures r.None? ==> forall i :: !IsExtensionDot(name, i)
    decreases k
  {
    if k == 0 then None
    else if name[k - 1] == '/' then None
    else if name[k - 1] == '.' then (if k < |name| then Some(k - 1) else None)
    else ScanForDot(name, k - 1)
  }

  /** `file.name.replace(/\.[^/.]+$/, '.jpg')`. */
  function JpegFileName(name: string): (r: string)
    ensures forall i :: IsExtensionDot(name, i) ==> r == name[..i] + ".jpg"
    ensures (forall i :: !IsExtensionDot(name, i)) ==> r == name
  {
    match ScanForDot(name, |name|)
    case Some(i) => name[..i] + ".jpg"
    case None => name
  }

  /** A name ending in `.jpg` has that dot as its extension dot. */
  lemma JpgIsExtension(stem: string)
    ensures IsExtensionDot(stem + ".jpg", |stem|)
  {
    var r := stem + ".jpg";
    forall j | |stem| < j < |r| ensures r[j] != '.' && r[j] != '/' {
      assert r[j] == "jpg"[j - |stem| - 1];
    }
  }

  /** Renaming is idempotent: a renamed file keeps its name when renamed again. */
  lemma JpegFileNameIdempotent(name: string)
    ensures JpegFileName(JpegFileName(name)) == JpegFileName(name)
  {
    if i :| IsExtensionDot(name, i) {
      var r := name[..i] + ".jpg";
      JpgIsExtension(name[..i]);
      assert r[..i] == name[..i];
    }
  }

  const UserFolder := "profile-photos"
  const PendingFolder := "pending-profile-photos"

  /** Absent `userId` / `tempId` props are the empty string (both are falsy). */
  function StoragePath(userId: string, tempId: string, now: nat, randomId: string, fileName: string): string
  {
    if userId != "" then
      UserFolder + "/" + userId + "/" + NatToString(now) + "_" + fileName
    else if tempId != "" then
      PendingFolder + "/" + tempId + "/" + NatToString(now) + "_" + fileName
    else
      PendingFolder + "/" + "temp_" + NatToString(now) + "_" + randomId + "/" + fileName
  }

  /** The part of a path before its first `/` (all of it when there is none). */
  function BeforeSlash(s: string): (r: string)
    ensures '/' !in r
  {
    if s == [] || s[0] == '/' then [] else [s[0]] + BeforeSlash(s[1..])
  }

  /** The part of a path after its first `/` (empty when there is none). */
  function AfterSlash(s: string): string
  {
    if s == [] then [] else if s[0] == '/' then s[1..] else AfterSlash(s[1..])
  }

  lemma {:induction false} SplitAtFirstSlash(a: string, b: string)
    requires '/' !in a
    ensures BeforeSlash(a + "/" + b) == a
    ensures AfterSlash(a + "/" + b) == b
  {
    if a != [] {
      assert (a + "/" + b)[1..] == a[1..] + "/" + b;
      SplitAtFirstSlash(a[1..], b);
    }
  }

  /** A path `top/owner/leaf` whose first two segments hold no slash reads back as its parts. */
  lemma ThreeSegments(top: string, owner: string, leaf: string)
    requires '/' !in top && '/' !in owner
    ensures BeforeSlash(top + "/" + owner + "/" + leaf) == top
    ensures BeforeSlash(AfterSlash(top + "/" + owner + "/" + leaf)) == owner
    ensures AfterSlash(AfterSlash(top + "/" + owner + "/" + leaf)) == leaf
  {
    assert top + "/" + owner + "/" + leaf == top + "/" + (owner + "/" + leaf);
    SplitAtFirstSlash(top, owner + "/" + leaf);
    SplitAtFirstSlash(owner, leaf);
  }

  lemma NoSlashInDigits(n: nat)
    ensures '/' !in NatToString(n)
  {
    var stamp := NatToString(n);
    forall k | 0 <= k < |stamp| ensures stamp[k] != '/' { assert IsDigit(stamp[k]); }
  }

  /** The path's top folder, owner segment and leaf, for each kind of owner. */
  lemma StoragePathShape(userId: string, tempId: string, now: nat, randomId: string, fileName: string)
    ensures var stamp := NatToString(now);
      StoragePath(userId, tempId, now, randomId, fileName) ==
        (if userId != "" then UserFolder else PendingFolder) + "/" +
        (if userId != "" then userId else if tempId != "" then tempId else "temp_" + stamp + "_" + randomId) + "/" +
        (if userId != "" || tempId != "" then stamp + "_" + fileName else fileName)
  {
    var stamp := NatToString(now);
    if userId != "" {
      assert UserFolder + "/" + userId + "/" + stamp + "_" + fileName
        == UserFolder + "/" + userId + "/" + (stamp + "_" + fileName);
    } else if tempId != "" {
      assert PendingFolder + "/" + tempId + "/" + stamp + "_" + fileName
        == PendingFolder + "/" + tempId + "/" + (stamp + "_" + fileName);
    } else {
      assert PendingFolder + "/" + "temp_" + stamp + "_" + randomId + "/" + fileName
        == PendingFolder + "/" + ("temp_" + stamp + "_" + randomId) + "/" + fileName;
    }
  }

  /** A generated owner segment has no `/` when the random id has none. */
  lemma GeneratedOwnerNoSlash(now: nat, randomId: string)
    requires '/' !in randomId
    ensures '/' !in "temp_" + NatToString(now) + "_" + randomId
  {
    NoSlashInDigits(now);
    assert '/' !in "temp_" && '/' !in "_";
  }

  /** Reading the path back: its top folder says whether the photo belongs to a registered
      user, and its second segment names the user id, the temp id or the generated id. */
  lemma StoragePathFolders(userId: string, tempId: string, now: nat, randomId: string, fileName: string)
    requires '/' !in userId && '/' !in tempId && '/' !in randomId
    ensures var p := StoragePath(userId, tempId, now, randomId, fileName);
      && BeforeSlash(p) == (if userId != "" then UserFolder else PendingFolder)
      && BeforeSlash(AfterSlash(p)) ==
           (if userId != "" then userId
            else if tempId != "" then tempId
            else "temp_" + NatToString(now) + "_" + randomId)
      && AfterSlash(AfterSlash(p)) ==
           (if userId != "" || tempId != "" then NatToString(now) + "_" + fileName else fileName)
  {
    var stamp := NatToString(now);
    var top := if userId != "" then UserFolder else PendingFolder;
    var owner := if userId != "" then userId else if tempId != "" then tempId else "temp_" + stamp + "_" + randomId;
    var leaf := if userId != "" || tempId != "" then stamp + "_" + fileName else fileName;
    StoragePathShape(userId, tempId, now, randomId, fileName);
    GeneratedOwnerNoSlash(now, randomId);
    assert '/' !in UserFolder && '/' !in PendingFolder;
    ThreeSegments(top, owner, leaf);
  }

  datatype SelectedFile = SelectedFile(name: string, mimeType: string, bytes: nat)

  /** What `handleFileSelect` does with one selection: nothing, an error message, or an
      upload of the compressed blob to `path`. `showsSavings` is whether the
      "Compressed: a → b" status is shown (original strictly larger than the blob). */
  datatype SelectOutcome =
    | NoFile
    | Rejected(message: string)
    | Upload(path: string, image: Compressed, showsSavings: bool)

  const NotAnImageMessage := "Please select an image file"
  const UploadFailedMessage := "Failed to upload photo. Please try again."

  method HandleFileSelect(file: Option<SelectedFile>, source: ImageSource, hasContext: bool,
                          encode: int -> Option<nat>, userId: string, tempId: string,
                          now: nat, randomId: string)
    returns (r: SelectOutcome, encodeCalls: nat)
    ensures file.None? ==> r == NoFile && encodeCalls == 0
    ensures file.Some? && !IsImageType(file.value.mimeType) ==>
      r == Rejected(NotAnImageMessage) && encodeCalls == 0
    ensures file.Some? && IsImageType(file.value.mimeType) ==>
      match Compression(source, hasContext, encode)
      case Failed(_) => r == Rejected(UploadFailedMessage)
      case Done(image) =>
        r == Upload(StoragePath(userId, tempId, now, randomId, JpegFileName(file.value.name)),
                    image, file.value.bytes > image.bytes)
    ensures encodeCalls <= 10
  {
    encodeCalls := 0;
    if file.None? {
      return NoFile, 0;
    }
    var f := file.value;
    if !IsImageType(f.mimeType) {
      return Rejected(NotAnImageMessage), 0;
    }
    var compressed;
    compressed, encodeCalls := CompressImage(source, hasContext, encode);
    if compressed.Failed? {
      return Rejected(UploadFailedMessage), encodeCalls;
    }
    var image := compressed.image;
    var fileName := JpegFileName(f.name);
    var path := StoragePath(userId, tempId, now, randomId, fileName);
    r := Upload(path, image, f.bytes > image.bytes);
  }

  // ---------------------------------------------------------------------------
  // Example photos

  /** A 4000x3000 photo is drawn at 800x600. */
  lemma OversizedPhotoFits()
    ensures FitWithin(Dimensions(4000, 3000)) == Dimensions(800, 600)
  {
    RoundDivExact(800, 4000);
    RoundDivExact(600, 4000);
    assert 4000 * MaxWidth == 800 * 4000 && 3000 * MaxWidth == 600 * 4000;
  }

  /** A 200x200, 50 KB photo keeps its size and is accepted at 0.92 on the first encoding. */
  lemma SmallPhotoAcceptedFirst(encode: int -> Option<nat>)
    requires encode(StartQuality) == Some(50 * 1024)
    ensures Compression(Decoded(Dimensions(200, 200)), true, encode)
      == Done(Compressed(Dimensions(200, 200), 92, 50 * 1024))
    ensures |Attempts(encode, StartQuality)| == 1
  {
  }

  /** An image that stays at 1500 KB at every quality is still accepted, at 0.47, after
      ten encodings: the quality floor ends the search unconditionally. */
  lemma IncompressibleImageStopsAtFloor(encode: int -> Option<nat>)
    requires forall q :: encode(q) == Some(1500 * 1024)
    ensures TryCompress(encode, StartQuality) == Accepted(47, 1500 * 1024)
    ensures |Attempts(encode, StartQuality)| == 10
  {
    assert TryCompress(encode, 52) == TryCompress(encode, 47);
    assert TryCompress(encode, 57) == TryCompress(encode, 52);
    assert TryCompress(encode, 62) == TryCompress(encode, 57);
    assert TryCompress(encode, 67) == TryCompress(encode, 62);
    assert TryCompress(encode, 72) == TryCompress(encode, 67);
    assert TryCompress(encode, 77) == TryCompress(encode, 72);
    assert TryCompress(encode, 82) == TryCompress(encode, 77);
    assert TryCompress(encode, 87) == TryCompress(encode, 82);
    QualityLadder(encode, StartQuality);
    FirstAcceptableWins(encode, StartQuality);
  }
}
