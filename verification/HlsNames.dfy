/** The names of HLS files: written by the converter (`crates/core/src/job/convert.rs`), read by the
    claim middleware (`crates/claim/src/middleware.rs`) and by the serving route
    (`crates/core/src/api/routes.rs`). */
module HlsNames {
  import opened Options
  import opened Strings
  import opened Utf8

  const U16_MAX: nat := 0xffff
  const U32_MAX: nat := 0xffff_ffff

  // ---- the converter ----

  datatype Codec = Vp9 | H265 | H264

  function PlaylistSuffix(codec: Codec): string {
    match codec
    case Vp9 => ""
    case H265 => "-h265"
    case H264 => "-h264"
  }

  function PlaylistFilename(codec: Codec, jobId: string): string {
    jobId + PlaylistSuffix(codec) + ".m3u8"
  }

  function SegmentPrefix(codec: Codec, jobId: string): string {
    match codec
    case Vp9 => jobId
    case H265 => jobId + "-h265"
    case H264 => jobId + "-h264"
  }

  function InitFilename(codec: Codec, jobId: string): string {
    SegmentPrefix(codec, jobId) + "-init.mp4"
  }

  function SegmentFilename(codec: Codec, jobId: string, segment: nat): string {
    SegmentPrefix(codec, jobId) + ['-'] + Decimal3(segment) + ".m4s"
  }

  // ---- the middleware ----

  function RemoveCodecSuffix(assetId: string): string {
    match StripSuffix(assetId, "-h265")
    case Some(id) => id
    case None =>
      match StripSuffix(assetId, "-h264")
      case Some(id) => id
      case None => assetId
  }

  datatype VideoName = VideoName(assetId: string, segment: Option<nat>, width: Option<nat>)

  function ParseFilePart(file: string, width: Option<nat>): Option<VideoName> {
    if EndsWith(file, ".m3u8") then
      Some(VideoName(RemoveCodecSuffix(TrimEndMatches(file, ".m3u8")), None, width))
    else if EndsWith(file, "-init.mp4") then
      Some(VideoName(RemoveCodecSuffix(TrimEndMatches(file, "-init.mp4")), Some(0), width))
    else if '-' in file && EndsWith(file, ".m4s") then
      match RSplitOnce(TrimEndMatches(file, ".m4s"), '-')
      case None => None
      case Some((asset, number)) =>
        match ParseUnsigned(number, U32_MAX)
        case None => None
        case Some(segment) => Some(VideoName(RemoveCodecSuffix(asset), Some(segment), width))
    else None
  }

  function ParseVideoFilename(filename: string): Option<VideoName> {
    var parts := Split(filename, '/');
    if |parts| == 1 then ParseFilePart(parts[0], None)
    else if |parts| == 2 then ParseFilePart(parts[1], ParseUnsigned(parts[0], U16_MAX))
    else if |parts| == 3 then ParseFilePart(parts[2], ParseUnsigned(parts[1], U16_MAX))
    else None
  }

  // ---- the route ----

  datatype Result<T> = Ok(value: T) | Err(message: string)

  predicate IsValidJobId(jobId: string) {
    && jobId != "" && '/' !in jobId && '-' !in jobId && '.' !in jobId && ' ' !in jobId
    && |Text(jobId)| <= 128
  }

  predicate AllDigits(s: string) {
    forall c <- s :: IsDigit(c)
  }

  function SplitBucketAndKey(filename: string): Result<(Option<string>, string)> {
    match SplitOnce(filename, '/')
    case None => Ok((None, filename))
    case Some((first, rest)) =>
      if AllDigits(first) then Ok((None, filename))
      else if rest == "" then Err("Invalid /videos path")
      else Ok((Some(first), rest))
  }

  function ExtractJobIdFromKey(key: string): Result<string> {
    var pathAndSuffix := Split(key, '.');
    if |pathAndSuffix| != 2 then Err("Invalid filename")
    else
      var vals := Split(pathAndSuffix[0], '-');
      if !(1 <= |vals| <= 3) then Err("Invalid filename")
      else
        match SplitOnce(vals[0], '/')
        case Some((_, jobId)) => Ok(jobId)
        case None => Ok(vals[0])
  }

  // ---- files and where they are asked for ----

  datatype Kind = Playlist | Init | Segment(number: nat)

  function FileName(codec: Codec, jobId: string, kind: Kind): string {
    match kind
    case Playlist => PlaylistFilename(codec, jobId)
    case Init => InitFilename(codec, jobId)
    case Segment(number) => SegmentFilename(codec, jobId, number)
  }

  /** A file is asked for at the top or under its width, each possibly behind a bucket name. */
  datatype Place = Place(bucket: Option<string>, width: Option<nat>)

  function WidthPrefix(width: Option<nat>): string {
    if width.None? then "" else Decimal(width.value) + ['/']
  }

  function PathOf(place: Place, file: string): string {
    (if place.bucket.None? then "" else place.bucket.value + ['/']) + (WidthPrefix(place.width) + file)
  }

  predicate PlaceFits(place: Place) {
    place.bucket.Some? ==> '/' !in place.bucket.value
  }

  function SegmentIndex(kind: Kind): Option<nat> {
    match kind
    case Playlist => None
    case Init => Some(0)
    case Segment(number) => Some(number)
  }

  // ---- the file part ----

  lemma CodecSuffixRemoved(codec: Codec, jobId: string)
    requires '-' !in jobId
    ensures RemoveCodecSuffix(SegmentPrefix(codec, jobId)) == jobId
    ensures jobId + PlaylistSuffix(codec) == SegmentPrefix(codec, jobId)
  {
    LacksEnding(jobId, "-h265", '-');
    LacksEnding(jobId, "-h264", '-');
    EndsWithOwn(jobId, PlaylistSuffix(codec));
    if codec == H264 {
      OtherEnding(jobId, "-h264", "-h265");
    }
  }

  lemma PrefixHasNo(codec: Codec, jobId: string, c: char)
    requires c !in jobId && c in {'.', '/', ' '}
    ensures c !in SegmentPrefix(codec, jobId)
  {
  }

  lemma DigitsHaveNo(s: string, c: char)
    requires AllDigits(s) && !IsDigit(c)
    ensures c !in s
  {
  }

  /** The middleware recovers the job and the segment from every file name of the converter. */
  lemma FilePartIsRead(codec: Codec, jobId: string, kind: Kind, width: Option<nat>)
    requires IsValidJobId(jobId)
    ensures ParseFilePart(FileName(codec, jobId, kind), width)
            == if kind.Segment? && kind.number > U32_MAX then None
               else Some(VideoName(jobId, SegmentIndex(kind), width))
  {
    CodecSuffixRemoved(codec, jobId);
    var prefix := SegmentPrefix(codec, jobId);
    PrefixHasNo(codec, jobId, '.');
    match kind {
      case Playlist =>
        EndsWithOwn(prefix, ".m3u8");
        TrimsOnce(prefix, ".m3u8", '.');
      case Init =>
        OtherEnding(prefix, "-init.mp4", ".m3u8");
        EndsWithOwn(prefix, "-init.mp4");
        TrimsOnce(prefix, "-init.mp4", '.');
      case Segment(number) =>
        SegmentIsRead(codec, jobId, number, width);
    }
  }

  lemma SegmentIsRead(codec: Codec, jobId: string, number: nat, width: Option<nat>)
    requires IsValidJobId(jobId)
    ensures ParseFilePart(SegmentFilename(codec, jobId, number), width)
            == if number > U32_MAX then None else Some(VideoName(jobId, Some(number), width))
  {
    CodecSuffixRemoved(codec, jobId);
    PrefixHasNo(codec, jobId, '.');
    StemIsRead(SegmentPrefix(codec, jobId), number, width);
  }

  lemma StemIsRead(prefix: string, number: nat, width: Option<nat>)
    requires '.' !in prefix
    ensures ParseFilePart(prefix + ['-'] + Decimal3(number) + ".m4s", width)
            == if number > U32_MAX then None else Some(VideoName(RemoveCodecSuffix(prefix), Some(number), width))
  {
    var digits := Decimal3(number);
    var stem := prefix + ['-'] + digits;
    DigitsHaveNo(digits, '.');
    DigitsHaveNo(digits, '-');
    OtherEnding(stem, ".m4s", ".m3u8");
    OtherEnding(stem, ".m4s", "-init.mp4");
    EndsWithOwn(stem, ".m4s");
    TrimsOnce(stem, ".m4s", '.');
    assert (stem + ".m4s")[|prefix|] == '-';
    RSplitOnceLast(prefix, '-', digits);
    DecimalIsParsed(number, U32_MAX);
  }

  lemma FileNameHasNoSlash(codec: Codec, jobId: string, kind: Kind)
    requires IsValidJobId(jobId)
    ensures '/' !in FileName(codec, jobId, kind) && FileName(codec, jobId, kind) != ""
  {
    var prefix := SegmentPrefix(codec, jobId);
    PrefixHasNo(codec, jobId, '/');
    match kind {
      case Playlist =>
        CodecSuffixRemoved(codec, jobId);
        ConcatLacks(prefix, ".m3u8", '/');
      case Init =>
        ConcatLacks(prefix, "-init.mp4", '/');
      case Segment(number) =>
        DigitsHaveNo(Decimal3(number), '/');
        ConcatLacks(prefix, ['-'], '/');
        ConcatLacks(prefix + ['-'], Decimal3(number), '/');
        ConcatLacks(prefix + ['-'] + Decimal3(number), ".m4s", '/');
    }
  }

  lemma ConcatLacks(a: string, b: string, c: char)
    requires c !in a && c !in b
    ensures c !in a + b
  {
  }

  // ---- the middleware on whole paths ----

  lemma SplitPath(place: Place, file: string)
    requires PlaceFits(place) && '/' !in file
    ensures Split(PathOf(place, file), '/')
            == (if place.bucket.None? then [] else [place.bucket.value])
               + ((if place.width.None? then [] else [Decimal(place.width.value)]) + [file])
  {
    SplitWhole(file, '/');
    var inner := WidthPrefix(place.width) + file;
    if place.width.Some? {
      DigitsHaveNo(Decimal(place.width.value), '/');
      SplitFirst(Decimal(place.width.value), '/', file);
    } else {
      assert inner == file;
    }
    if place.bucket.Some? {
      SplitFirst(place.bucket.value, '/', inner);
      assert PathOf(place, file) == place.bucket.value + ['/'] + inner;
    } else {
      assert PathOf(place, file) == inner;
    }
  }

  /** What the middleware takes for the width: the width directory if there is one that fits 16 bits, but
      without one, whatever number a bucket name can be read as. */
  function WidthSeen(place: Place): Option<nat> {
    match place.width
    case Some(width) => if width <= U16_MAX then Some(width) else None
    case None => if place.bucket.None? then None else ParseUnsigned(place.bucket.value, U16_MAX)
  }

  /** Every name the converter gives, wherever it is asked for, is read by the middleware as the job,
      the segment and the width it was made from. */
  lemma MiddlewareReadsNames(codec: Codec, jobId: string, kind: Kind, place: Place)
    requires IsValidJobId(jobId) && PlaceFits(place)
    ensures ParseVideoFilename(PathOf(place, FileName(codec, jobId, kind)))
            == if kind.Segment? && kind.number > U32_MAX then None
               else Some(VideoName(jobId, SegmentIndex(kind), WidthSeen(place)))
  {
    var file := FileName(codec, jobId, kind);
    FileNameHasNoSlash(codec, jobId, kind);
    SplitPath(place, file);
    FilePartIsRead(codec, jobId, kind, WidthSeen(place));
    if place.width.Some? {
      DecimalIsParsed(place.width.value, U16_MAX);
    }
  }

  /** The middleware sees the right width exactly if the width fits 16 bits and, without a width, the
      bucket name cannot be read as one. */
  lemma WidthIsRightIff(place: Place)
    ensures WidthSeen(place) == place.width
            <==> match place.width
                 case Some(width) => width <= U16_MAX
                 case None => place.bucket.Some? ==> ParseUnsigned(place.bucket.value, U16_MAX).None?
  {
  }

  // ---- the route on whole paths ----

  lemma FileSplitsAtDot(codec: Codec, jobId: string, kind: Kind) returns (stem: string, suffix: string)
    requires IsValidJobId(jobId)
    ensures FileName(codec, jobId, kind) == stem + ['.'] + suffix && '.' !in stem && '.' !in suffix
    ensures Split(stem, '-')[0] == jobId && |Split(stem, '-')| <= 3
  {
    match kind {
      case Playlist => stem, suffix := PlaylistSplits(codec, jobId);
      case Init => stem, suffix := InitSplits(codec, jobId);
      case Segment(number) => stem, suffix := SegmentSplits(codec, jobId, number);
    }
  }

  lemma PlaylistSplits(codec: Codec, jobId: string) returns (stem: string, suffix: string)
    requires IsValidJobId(jobId)
    ensures PlaylistFilename(codec, jobId) == stem + ['.'] + suffix && '.' !in stem && '.' !in suffix
    ensures Split(stem, '-')[0] == jobId && |Split(stem, '-')| <= 3
  {
    stem, suffix := SegmentPrefix(codec, jobId), "m3u8";
    PrefixHasNo(codec, jobId, '.');
    CodecSuffixRemoved(codec, jobId);
    SplitPrefix(codec, jobId);
    DotSuffix(stem, "m3u8", ".m3u8");
  }

  lemma InitSplits(codec: Codec, jobId: string) returns (stem: string, suffix: string)
    requires IsValidJobId(jobId)
    ensures InitFilename(codec, jobId) == stem + ['.'] + suffix && '.' !in stem && '.' !in suffix
    ensures Split(stem, '-')[0] == jobId && |Split(stem, '-')| <= 3
  {
    var prefix := SegmentPrefix(codec, jobId);
    stem, suffix := prefix + ['-'] + "init", "mp4";
    PrefixHasNo(codec, jobId, '.');
    SplitPrefixed(codec, jobId, "init");
    assert "-init.mp4" == ['-'] + "init" + ".mp4";
    assert prefix + "-init.mp4" == stem + ".mp4";
    DotSuffix(stem, "mp4", ".mp4");
  }

  lemma SegmentSplits(codec: Codec, jobId: string, number: nat) returns (stem: string, suffix: string)
    requires IsValidJobId(jobId)
    ensures SegmentFilename(codec, jobId, number) == stem + ['.'] + suffix && '.' !in stem && '.' !in suffix
    ensures Split(stem, '-')[0] == jobId && |Split(stem, '-')| <= 3
  {
    stem, suffix := SegmentPrefix(codec, jobId) + ['-'] + Decimal3(number), "m4s";
    PrefixHasNo(codec, jobId, '.');
    DigitsHaveNo(Decimal3(number), '-');
    DigitsHaveNo(Decimal3(number), '.');
    SplitPrefixed(codec, jobId, Decimal3(number));
    DotSuffix(stem, "m4s", ".m4s");
  }

  lemma DotSuffix(stem: string, suffix: string, dotted: string)
    requires dotted == ['.'] + suffix
    ensures stem + dotted == stem + ['.'] + suffix
  {
  }

  lemma SplitPrefix(codec: Codec, jobId: string)
    requires '-' !in jobId
    ensures Split(SegmentPrefix(codec, jobId), '-')
            == match codec case Vp9 => [jobId] case H265 => [jobId, "h265"] case H264 => [jobId, "h264"]
  {
    SplitWhole(jobId, '-');
    SplitWhole("h265", '-');
    SplitWhole("h264", '-');
    SplitFirst(jobId, '-', "h265");
    SplitFirst(jobId, '-', "h264");
    assert jobId + "-h265" == jobId + ['-'] + "h265" && jobId + "-h264" == jobId + ['-'] + "h264";
  }

  lemma SplitPrefixed(codec: Codec, jobId: string, last: string)
    requires '-' !in jobId && '-' !in last
    ensures var parts := Split(SegmentPrefix(codec, jobId) + ['-'] + last, '-');
            parts[0] == jobId && |parts| <= 3
  {
    SplitWhole(last, '-');
    if codec == Vp9 {
      SplitFirst(jobId, '-', last);
    } else {
      var name := if codec == H265 then "h265" else "h264";
      SplitFirst(name, '-', last);
      SplitFirst(jobId, '-', name + ['-'] + last);
      assert SegmentPrefix(codec, jobId) + ['-'] + last == jobId + ['-'] + (name + ['-'] + last);
    }
  }

  /** The route finds the job after whatever directory is left in the key: one level of it is dropped. */
  lemma KeyIsRead(codec: Codec, jobId: string, kind: Kind, directory: string)
    requires IsValidJobId(jobId) && '.' !in directory && '-' !in directory
    ensures ExtractJobIdFromKey(directory + FileName(codec, jobId, kind))
            == match SplitOnce(directory + jobId, '/') case Some((_, id)) => Ok(id) case None => Ok(directory + jobId)
  {
    var stem, suffix := FileSplitsAtDot(codec, jobId, kind);
    SplitWhole(suffix, '.');
    SplitFirst(directory + stem, '.', suffix);
    assert directory + FileName(codec, jobId, kind) == directory + stem + ['.'] + suffix;
    SplitGlue(directory, stem, '-');
  }

  lemma KeyUnderWidth(codec: Codec, jobId: string, kind: Kind, width: Option<nat>)
    requires IsValidJobId(jobId)
    ensures ExtractJobIdFromKey(WidthPrefix(width) + FileName(codec, jobId, kind)) == Ok(jobId)
  {
    if width.None? {
      KeyIsRead(codec, jobId, kind, "");
      SplitOnceNone(jobId, '/');
      assert "" + jobId == jobId;
    } else {
      var digits := Decimal(width.value);
      DigitsHaveNo(digits, '.');
      DigitsHaveNo(digits, '-');
      DigitsHaveNo(digits, '/');
      KeyIsRead(codec, jobId, kind, digits + ['/']);
      SplitOnceFirst(digits, '/', jobId);
    }
  }

  /** Where the bucket name is not a number (or there is none), the route recovers the bucket, the rest
      of the path and the job from every name of the converter. */
  lemma RouteReadsNames(codec: Codec, jobId: string, kind: Kind, place: Place)
    requires IsValidJobId(jobId) && PlaceFits(place)
    requires place.bucket.Some? ==> !AllDigits(place.bucket.value)
    ensures var file := FileName(codec, jobId, kind);
            var key := WidthPrefix(place.width) + file;
            && SplitBucketAndKey(PathOf(place, file)) == Ok((place.bucket, key))
            && ExtractJobIdFromKey(key) == Ok(jobId)
  {
    var file := FileName(codec, jobId, kind);
    FileNameHasNoSlash(codec, jobId, kind);
    KeyUnderWidth(codec, jobId, kind, place.width);
    if place.bucket.Some? {
      SplitOnceFirst(place.bucket.value, '/', WidthPrefix(place.width) + file);
      assert PathOf(place, file) == place.bucket.value + ['/'] + (WidthPrefix(place.width) + file);
    } else {
      assert PathOf(place, file) == WidthPrefix(place.width) + file;
      if place.width.Some? {
        DigitsHaveNo(Decimal(place.width.value), '/');
        SplitOnceFirst(Decimal(place.width.value), '/', file);
      } else {
        assert WidthPrefix(place.width) + file == file;
        SplitOnceNone(file, '/');
      }
    }
  }

  /** A bucket name of digits is taken for a width: the bucket is lost, and with a width directory behind
      it the job id is wrong too. */
  lemma NumericBucketIsLost(codec: Codec, jobId: string, kind: Kind, bucket: string, width: Option<nat>)
    requires IsValidJobId(jobId) && AllDigits(bucket)
    ensures var path := PathOf(Place(Some(bucket), width), FileName(codec, jobId, kind));
            && SplitBucketAndKey(path) == Ok((None, path))
            && ExtractJobIdFromKey(path) == Ok(WidthPrefix(width) + jobId)
  {
    var file := FileName(codec, jobId, kind);
    var path := PathOf(Place(Some(bucket), width), file);
    var inner := WidthPrefix(width);
    DigitsHaveNo(bucket, '/');
    DigitsHaveNo(bucket, '.');
    DigitsHaveNo(bucket, '-');
    SplitOnceFirst(bucket, '/', inner + file);
    assert path == bucket + ['/'] + (inner + file);
    var directory := bucket + ['/'] + inner;
    if width.Some? {
      DigitsHaveNo(Decimal(width.value), '.');
      DigitsHaveNo(Decimal(width.value), '-');
    }
    KeyIsRead(codec, jobId, kind, directory);
    SplitOnceFirst(bucket, '/', inner + jobId);
    assert path == directory + file;
    assert directory + jobId == bucket + ['/'] + (inner + jobId);
  }

  // ---- the buckets that may be written to ----

  predicate IsPureAsciiDigits(s: string) {
    s != "" && AllDigits(s)
  }

  predicate ValidBucketForWrite(bucket: string) {
    bucket != "" && '/' !in bucket && !IsPureAsciiDigits(bucket)
  }

  /** For every bucket that may be written to, both parsers agree with the converter, with one family of
      exceptions in the middleware: at the top of a bucket named by a plus sign and a number of at most
      16 bits, that number is taken for a width. */
  lemma ParsersAgree(codec: Codec, jobId: string, kind: Kind, place: Place)
    requires IsValidJobId(jobId) && (kind.Segment? ==> kind.number <= U32_MAX)
    requires place.bucket.Some? ==> ValidBucketForWrite(place.bucket.value)
    requires place.width.Some? ==> place.width.value <= U16_MAX
    ensures var path := PathOf(place, FileName(codec, jobId, kind));
            var key := WidthPrefix(place.width) + FileName(codec, jobId, kind);
            && SplitBucketAndKey(path) == Ok((place.bucket, key)) && ExtractJobIdFromKey(key) == Ok(jobId)
            && ParseVideoFilename(path).Some?
            && ParseVideoFilename(path).value.assetId == jobId
            && ParseVideoFilename(path).value.segment == SegmentIndex(kind)
            && (ParseVideoFilename(path).value.width != place.width <==> LooksLikeWidth(place))
  {
    RouteReadsNames(codec, jobId, kind, place);
    MiddlewareReadsNames(codec, jobId, kind, place);
    WidthIsRightIff(place);
    if place.bucket.Some? {
      OnlyDigitsHaveValue(place.bucket.value);
    }
  }

  predicate LooksLikeWidth(place: Place) {
    && place.width.None? && place.bucket.Some?
    && |place.bucket.value| >= 2 && place.bucket.value[0] == '+'
    && DigitsValue(place.bucket.value[1..]).Some? && DigitsValue(place.bucket.value[1..]).value <= U16_MAX
  }

  /** A bucket named "+720" may be written to; the master playlist at its top is read as one of width 720. */
  lemma PlusBucketIsMisread(jobId: string)
    requires IsValidJobId(jobId)
    ensures ValidBucketForWrite("+720")
    ensures ParseVideoFilename("+720/" + jobId + ".m3u8") == Some(VideoName(jobId, None, Some(720)))
  {
    var place := Place(Some("+720"), None);
    MiddlewareReadsNames(Vp9, jobId, Playlist, place);
    assert PathOf(place, FileName(Vp9, jobId, Playlist)) == "+720/" + jobId + ".m3u8";
    PlusNumber();
  }

  lemma PlusNumber()
    ensures ValidBucketForWrite("+720") && ParseUnsigned("+720", U16_MAX) == Some(720)
  {
    assert "+720"[1..] == "720" && "720"[..2] == "72" && "72"[..1] == "7" && "7"[..0] == "";
    assert DigitsValue("7") == Some(7) && DigitsValue("72") == Some(72) && DigitsValue("720") == Some(720);
    assert "+720"[0] == '+' && !IsDigit("+720"[0]);
  }
}
