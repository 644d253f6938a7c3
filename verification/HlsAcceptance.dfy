/** Exactly which names the claim middleware and the serving route accept, written by the converter or not
    (`crates/claim/src/middleware.rs`, `crates/core/src/api/routes.rs`). */
module HlsAcceptance {
  import opened HlsNames
  import opened Options
  import opened Strings
  import opened Utf8

  // ---- endings that are removed ----

  function Repeated(suffix: string, k: nat): string {
    if k == 0 then "" else Repeated(suffix, k - 1) + suffix
  }

  /** The name is this stem with the suffix once or more behind it. */
  ghost predicate IsStem(file: string, stem: string, suffix: string) {
    !EndsWith(stem, suffix) && exists k: nat :: k >= 1 && file == stem + Repeated(suffix, k)
  }

  lemma Regrouped(a: string, b: string, c: string)
    ensures a + b + c == a + (b + c)
  {
  }

  lemma {:induction false} TrimsAll(file: string, stem: string, suffix: string, k: nat)
    requires suffix != "" && !EndsWith(stem, suffix) && file == stem + Repeated(suffix, k)
    ensures TrimEndMatches(file, suffix) == stem
    decreases k
  {
    if k == 0 {
      NothingTrimmed(file, stem, suffix);
    } else {
      var front := OneLess(file, stem, suffix, k - 1);
      TrimsAll(front, stem, suffix, k - 1);
    }
  }

  lemma NothingTrimmed(file: string, stem: string, suffix: string)
    requires !EndsWith(stem, suffix) && file == stem + ""
    ensures TrimEndMatches(file, suffix) == stem
  {
    assert file == stem;
  }

  lemma OneLess(file: string, stem: string, suffix: string, k: nat) returns (front: string)
    requires suffix != "" && file == stem + Repeated(suffix, k + 1)
    ensures front == stem + Repeated(suffix, k)
    ensures EndsWith(file, suffix) && TrimEndMatches(file, suffix) == TrimEndMatches(front, suffix)
  {
    front := stem + Repeated(suffix, k);
    Regrouped(stem, Repeated(suffix, k), suffix);
    EndsWithOwn(front, suffix);
  }

  lemma {:induction false} TrimLeaves(s: string, suffix: string) returns (k: nat)
    requires suffix != ""
    ensures s == TrimEndMatches(s, suffix) + Repeated(suffix, k)
    ensures !EndsWith(TrimEndMatches(s, suffix), suffix) && (EndsWith(s, suffix) <==> k >= 1)
    decreases |s|
  {
    if EndsWith(s, suffix) {
      var front := s[..|s| - |suffix|];
      var n := TrimLeaves(front, suffix);
      k := n + 1;
      assert s == front + suffix;
      Regrouped(TrimEndMatches(front, suffix), Repeated(suffix, n), suffix);
    } else {
      k := 0;
      assert s + "" == s;
    }
  }

  lemma StemIsTrimmed(file: string, stem: string, suffix: string)
    requires suffix != "" && IsStem(file, stem, suffix)
    ensures EndsWith(file, suffix) && stem == TrimEndMatches(file, suffix)
  {
    var k: nat :| k >= 1 && file == stem + Repeated(suffix, k);
    TrimsAll(file, stem, suffix, k);
    EndsRepeated(file, stem, suffix, k);
  }

  lemma EndsRepeated(file: string, stem: string, suffix: string, k: nat)
    requires suffix != "" && k >= 1 && file == stem + Repeated(suffix, k)
    ensures EndsWith(file, suffix)
  {
    var _ := OneLess(file, stem, suffix, k - 1);
  }

  lemma TrimmedIsStem(file: string, suffix: string)
    requires suffix != "" && EndsWith(file, suffix)
    ensures IsStem(file, TrimEndMatches(file, suffix), suffix)
  {
    var k := TrimLeaves(file, suffix);
  }

  /** Trimming finds the stem, and there is only one. */
  lemma StemIff(file: string, stem: string, suffix: string)
    requires suffix != ""
    ensures IsStem(file, stem, suffix) <==> EndsWith(file, suffix) && stem == TrimEndMatches(file, suffix)
  {
    if IsStem(file, stem, suffix) {
      StemIsTrimmed(file, stem, suffix);
    } else if EndsWith(file, suffix) {
      TrimmedIsStem(file, suffix);
    }
  }

  /** At most one codec suffix is removed. */
  lemma OneSuffixRemoved(id: string)
    ensures RemoveCodecSuffix(id + "-h265") == id && RemoveCodecSuffix(id + "-h264") == id
    ensures !EndsWith(id, "-h265") && !EndsWith(id, "-h264") ==> RemoveCodecSuffix(id) == id
  {
    EndsWithOwn(id, "-h265");
    EndsWithOwn(id, "-h264");
    OtherEnding(id, "-h264", "-h265");
  }

  // ---- the file part ----

  lemma {:induction false} RSplitOnceParts(s: string, c: char)
    ensures RSplitOnce(s, c).Some? <==> c in s
    ensures match RSplitOnce(s, c)
            case None => true
            case Some((a, b)) => s == a + [c] + b && c !in b
  {
    if s != "" {
      var front, last := s[..|s| - 1], s[|s| - 1];
      assert s == front + [last];
      RSplitOnceParts(front, c);
    }
  }

  ghost predicate IsPlaylistName(file: string, name: VideoName) {
    name.segment.None? && exists stem :: IsStem(file, stem, ".m3u8") && name.assetId == RemoveCodecSuffix(stem)
  }

  ghost predicate IsInitName(file: string, name: VideoName) {
    name.segment == Some(0) && exists stem :: IsStem(file, stem, "-init.mp4") && name.assetId == RemoveCodecSuffix(stem)
  }

  ghost predicate IsSplit(stem: string, asset: string, number: string) {
    stem == asset + ['-'] + number && '-' !in number
  }

  /** An asset, a dash, and behind it a number of at most 32 bits. */
  ghost predicate IsSegmentStem(stem: string, name: VideoName) {
    exists asset, number :: IsSplit(stem, asset, number)
      && name.segment == ParseUnsigned(number, 0xffff_ffff) && name.assetId == RemoveCodecSuffix(asset)
  }

  ghost predicate IsSegmentName(file: string, name: VideoName) {
    name.segment.Some? && exists stem :: IsStem(file, stem, ".m4s") && IsSegmentStem(stem, name)
  }

  /** The file part is accepted, and gives this name, exactly if it is the name of a playlist, of an initial
      segment or of a numbered segment. */
  lemma FilePartIff(file: string, width: Option<nat>, name: VideoName)
    ensures ParseFilePart(file, width) == Some(name)
            <==> name.width == width
                 && (IsPlaylistName(file, name) || IsInitName(file, name) || IsSegmentName(file, name))
  {
    if name.width == width {
      PlaylistIff(file, width, name);
      InitIff(file, width, name);
      SegmentIff(file, width, name);
    }
  }

  lemma OneEnding(file: string)
    ensures EndsWith(file, ".m3u8") ==> !EndsWith(file, "-init.mp4") && !EndsWith(file, ".m4s")
    ensures EndsWith(file, "-init.mp4") ==> !EndsWith(file, ".m4s")
  {
    LastCharacter(file, ".m3u8");
    LastCharacter(file, "-init.mp4");
    LastCharacter(file, ".m4s");
  }

  lemma LastCharacter(s: string, suffix: string)
    requires suffix != ""
    ensures EndsWith(s, suffix) ==> s[|s| - 1] == suffix[|suffix| - 1]
  {
    if EndsWith(s, suffix) {
      assert s[|s| - |suffix|..][|suffix| - 1] == suffix[|suffix| - 1];
    }
  }

  lemma PlaylistIff(file: string, width: Option<nat>, name: VideoName)
    requires name.width == width
    ensures IsPlaylistName(file, name)
            <==> EndsWith(file, ".m3u8") && ParseFilePart(file, width) == Some(name)
  {
    var stem := TrimEndMatches(file, ".m3u8");
    forall other ensures IsStem(file, other, ".m3u8") <==> EndsWith(file, ".m3u8") && other == stem {
      StemIff(file, other, ".m3u8");
    }
  }

  lemma InitIff(file: string, width: Option<nat>, name: VideoName)
    requires name.width == width
    ensures IsInitName(file, name)
            <==> EndsWith(file, "-init.mp4") && ParseFilePart(file, width) == Some(name)
  {
    OneEnding(file);
    var stem := TrimEndMatches(file, "-init.mp4");
    forall other ensures IsStem(file, other, "-init.mp4") <==> EndsWith(file, "-init.mp4") && other == stem {
      StemIff(file, other, "-init.mp4");
    }
  }

  lemma SegmentIff(file: string, width: Option<nat>, name: VideoName)
    requires name.width == width
    ensures IsSegmentName(file, name)
            <==> EndsWith(file, ".m4s") && ParseFilePart(file, width) == Some(name)
  {
    OneEnding(file);
    var stem := TrimEndMatches(file, ".m4s");
    forall other ensures IsStem(file, other, ".m4s") <==> EndsWith(file, ".m4s") && other == stem {
      StemIff(file, other, ".m4s");
    }
    if EndsWith(file, ".m4s") {
      DashStays(file);
      SegmentStemIff(stem, name);
    }
  }

  lemma DashStays(file: string)
    ensures '-' in file <==> '-' in TrimEndMatches(file, ".m4s")
    decreases |file|
  {
    if EndsWith(file, ".m4s") {
      DashStays(file[..|file| - 4]);
      assert file == file[..|file| - 4] + ".m4s";
    }
  }

  lemma SegmentStemIff(stem: string, name: VideoName)
    ensures IsSegmentStem(stem, name)
            <==> match RSplitOnce(stem, '-')
                 case None => false
                 case Some((asset, number)) =>
                   name.segment == ParseUnsigned(number, 0xffff_ffff) && name.assetId == RemoveCodecSuffix(asset)
  {
    forall asset, number
      ensures IsSplit(stem, asset, number) <==> RSplitOnce(stem, '-') == Some((asset, number))
    {
      SplitIff(stem, asset, number);
    }
  }

  lemma SplitIff(stem: string, asset: string, number: string)
    ensures IsSplit(stem, asset, number) <==> RSplitOnce(stem, '-') == Some((asset, number))
  {
    RSplitOnceParts(stem, '-');
    if IsSplit(stem, asset, number) {
      RSplitOnceLast(asset, '-', number);
    }
  }

  // ---- whole paths ----

  function Join(parts: seq<string>, separator: char): string
    requires parts != []
  {
    if |parts| == 1 then parts[0] else parts[0] + [separator] + Join(parts[1..], separator)
  }

  ghost predicate NoneHas(parts: seq<string>, c: char) {
    forall i | 0 <= i < |parts| :: c !in parts[i]
  }

  lemma {:induction false} JoinedSplits(parts: seq<string>, c: char)
    requires parts != [] && NoneHas(parts, c)
    ensures Split(Join(parts, c), c) == parts
  {
    if |parts| == 1 {
      SplitWhole(parts[0], c);
      assert parts == [parts[0]];
    } else {
      JoinedSplits(parts[1..], c);
      SplitFirst(parts[0], c, Join(parts[1..], c));
    }
  }

  lemma {:induction false} SplitJoins(s: string, c: char)
    ensures Join(Split(s, c), c) == s && NoneHas(Split(s, c), c)
  {
    if s != "" {
      var rest := Split(s[1..], c);
      SplitJoins(s[1..], c);
      assert s == [s[0]] + s[1..];
      if s[0] == c {
        assert ([""] + rest)[1..] == rest;
        assert Join([""] + rest, c) == "" + [c] + Join(rest, c);
      } else {
        assert ([[s[0]] + rest[0]] + rest[1..])[1..] == rest[1..];
        assert Join([[s[0]] + rest[0]] + rest[1..], c) == [s[0]] + Join(rest, c);
      }
    }
  }

  /** The middleware accepts a path exactly if it has at most two directories and its file part is accepted;
      the width is the number that the last directory can be read as.  Every path is one of these. */
  lemma PathIff(path: string) returns (directories: seq<string>, file: string)
    ensures path == Join(directories + [file], '/') && NoneHas(directories + [file], '/')
    ensures ParseVideoFilename(path)
            == if |directories| > 2 then None
               else ParseFilePart(file, if directories == [] then None
                                        else ParseUnsigned(directories[|directories| - 1], 0xffff))
  {
    SplitJoins(path, '/');
    var parts := Split(path, '/');
    directories, file := parts[..|parts| - 1], parts[|parts| - 1];
    assert directories + [file] == parts;
  }

  ghost predicate AreParts(stem: string, vals: seq<string>) {
    vals != [] && NoneHas(vals, '-') && stem == Join(vals, '-')
  }

  /** At most three parts with dashes between them. */
  ghost predicate IsDashed(stem: string) {
    exists vals :: AreParts(stem, vals) && |vals| <= 3
  }

  lemma DashedIff(stem: string)
    ensures IsDashed(stem) <==> |Split(stem, '-')| <= 3
  {
    SplitJoins(stem, '-');
    assert AreParts(stem, Split(stem, '-'));
    if IsDashed(stem) {
      var vals :| AreParts(stem, vals) && |vals| <= 3;
      JoinedSplits(vals, '-');
    }
  }

  /** The route accepts a key exactly if it has one dot and at most two dashes before it. */
  lemma KeyIff(stem: string, suffixes: seq<string>)
    requires '.' !in stem && NoneHas(suffixes, '.')
    ensures ExtractJobIdFromKey(Join([stem] + suffixes, '.')).Ok? <==> |suffixes| == 1 && IsDashed(stem)
  {
    JoinedSplits([stem] + suffixes, '.');
    DashedIff(stem);
  }

  /** The first directory is the bucket unless it is all digits; a bucket with nothing behind it is refused, and a
      path without directories has none. */
  lemma BucketIff(first: string, rest: string)
    requires '/' !in first
    ensures SplitBucketAndKey(first) == Ok((None, first))
    ensures SplitBucketAndKey(first + ['/'] + rest)
            == if forall c <- first :: IsDigit(c) then Ok((None, first + ['/'] + rest))
               else if rest == "" then Err("Invalid /videos path")
               else Ok((Some(first), rest))
  {
    SplitOnceNone(first, '/');
    SplitOnceFirst(first, '/', rest);
  }

  /** The job ids that are allowed: 1 to 128 bytes of UTF-8 without a slash, a dash, a dot or a space. */
  lemma JobIdIff(jobId: string)
    ensures IsValidJobId(jobId)
            <==> 1 <= |Text(jobId)| <= 128 && forall c <- jobId :: c !in {'/', '-', '.', ' '}
  {
  }

  /** A segment number is written with at least three digits, padded with zeros. */
  lemma SegmentDigits(n: nat)
    ensures |Decimal3(n)| >= 3 && EndsWith(Decimal3(n), Decimal(n))
    ensures forall i | 0 <= i < |Decimal3(n)| - |Decimal(n)| :: Decimal3(n)[i] == '0'
    ensures |Decimal3(n)| > 3 ==> Decimal3(n) == Decimal(n)
  {
    if n < 100 {
      assert n >= 10 ==> Decimal(n) == Decimal(n / 10) + [Digit(n % 10)];
    } else {
      assert Decimal(n) == Decimal(n / 10) + [Digit(n % 10)];
      assert Decimal(n / 10) == Decimal(n / 10 / 10) + [Digit(n / 10 % 10)];
    }
  }
}
