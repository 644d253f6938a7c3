/** The two versions of the claim payload: `crates/claim/src/payload/payload_v1.rs` names one asset,
    `crates/claim/src/payload/payload_v2.rs` embeds a filter of assets. */
module ClaimPayload {
  import opened Bits
  import opened Encoding
  import opened FuseFilter
  import opened ClaimFormat
  import opened Utf8

  /** The filter reader is handed exactly the bytes that its length field asks for. */
  function FilterEnd(bytes: seq<u8>): nat
    requires |bytes| >= 10
  {
    8 + 2 + DESCRIPTOR_LEN + 2 * Value(bytes[8..10])
  }

  // ---- version 2 ----

  datatype PayloadV2 = PayloadV2(expUnix: u32, nbfUnix: u32, assets: Filter, limits: Limits)

  predicate FitsV2(p: PayloadV2) {
    FilterFits(p.assets) && LimitsFit(p.limits)
  }

  function WriteV2(p: PayloadV2): (bytes: seq<u8>)
    requires LimitsFit(p.limits)
    ensures |bytes| == 8 + |WriteFilter(p.assets)| + |WriteLimits(p.limits)|
  {
    Le(p.expUnix, 4) + (Le(p.nbfUnix, 4) + (WriteFilter(p.assets) + WriteLimits(p.limits)))
  }

  /** These bytes begin with this payload; whatever follows is ignored by the reader. */
  ghost predicate StartsWithV2(bytes: seq<u8>, p: PayloadV2) {
    FitsV2(p) && WriteV2(p) <= bytes
  }

  lemma PartsV2(p: PayloadV2, bytes: seq<u8>)
    requires LimitsFit(p.limits) && |bytes| >= 8 + |WriteFilter(p.assets)|
    ensures WriteV2(p) <= bytes <==>
              && Le(p.expUnix, 4) <= bytes && Le(p.nbfUnix, 4) <= bytes[4..]
              && WriteFilter(p.assets) <= bytes[8..]
              && WriteLimits(p.limits) <= bytes[8 + |WriteFilter(p.assets)|..]
  {
    var filter, limits := WriteFilter(p.assets), WriteLimits(p.limits);
    PrefixParts(Le(p.expUnix, 4), Le(p.nbfUnix, 4) + (filter + limits), bytes);
    PrefixParts(Le(p.nbfUnix, 4), filter + limits, bytes[4..]);
    PrefixParts(filter, limits, bytes[8..]);
    assert bytes[4..][4..] == bytes[8..] && bytes[8..][|filter|..] == bytes[8 + |filter|..];
  }

  /** Bytes begin with at most one payload: the format cannot be read in two ways. */
  lemma V2WrittenOnce(p: PayloadV2, q: PayloadV2, bytes: seq<u8>)
    requires StartsWithV2(bytes, p) && StartsWithV2(bytes, q)
    ensures p == q
  {
    Widths();
    PartsV2(p, bytes);
    PartsV2(q, bytes);
    LeWrittenOnce(p.expUnix, q.expUnix, 4, bytes);
    LeWrittenOnce(p.nbfUnix, q.nbfUnix, 4, bytes[4..]);
    FilterWrittenOnce(p.assets, q.assets, bytes[8..]);
    LimitsWrittenOnce(p.limits, q.limits, bytes[8 + |WriteFilter(p.assets)|..]);
  }

  lemma V2Needs(p: PayloadV2, bytes: seq<u8>)
    requires StartsWithV2(bytes, p)
    ensures |bytes| >= 10 && FilterEnd(bytes) == 8 + |WriteFilter(p.assets)| <= |bytes|
    ensures WriteLimits(p.limits) <= bytes[FilterEnd(bytes)..]
  {
    PartsV2(p, bytes);
    FilterLength(p.assets, bytes[8..]);
    assert bytes[8..][0..2] == bytes[8..10];
  }

  /** Without room for the filter, or without limits after it, no payload is there. */
  lemma RefusedV2(bytes: seq<u8>)
    requires |bytes| >= 10
    requires |bytes| < FilterEnd(bytes) + 6
             || forall l | LimitsFit(l) :: !(WriteLimits(l) <= bytes[FilterEnd(bytes)..])
    ensures forall p: PayloadV2 :: !StartsWithV2(bytes, p)
  {
    forall p: PayloadV2 ensures !StartsWithV2(bytes, p) {
      if StartsWithV2(bytes, p) {
        V2Needs(p, bytes);
      }
    }
  }

  lemma AcceptedV2(bytes: seq<u8>, p: PayloadV2, end: nat)
    requires FitsV2(p) && end <= |bytes| && end == 8 + |WriteFilter(p.assets)|
    requires Le(p.expUnix, 4) == bytes[0..4] && Le(p.nbfUnix, 4) == bytes[4..8]
    requires WriteFilter(p.assets) == bytes[8..end] && WriteLimits(p.limits) <= bytes[end..]
    ensures StartsWithV2(bytes, p)
  {
    PartsV2(p, bytes);
  }

  lemma {:induction false} SomeWords(bytes: seq<u8>) returns (words: seq<u16>)
    requires |bytes| % 2 == 0
    ensures Words(words) == bytes
  {
    if bytes == [] {
      words := [];
    } else {
      var front, last := bytes[..|bytes| - 2], bytes[|bytes| - 2..];
      words := SomeWords(front);
      Widths();
      LeOfValue(last);
      WordsAppend(words, Value(last));
      words := words + [Value(last)];
      assert bytes == front + last;
    }
  }

  /** Enough bytes always begin with some limits. */
  lemma SomeLimits(bytes: seq<u8>) returns (l: Limits)
    requires |bytes| >= 7 + 2 * 255
    ensures LimitsFit(l) && WriteLimits(l) <= bytes
  {
    Widths();
    LeOfValue(bytes[0..2]);
    LeOfValue(bytes[2..4]);
    LeOfValue(bytes[4..6]);
    var count: nat := bytes[6];
    var words := SomeWords(bytes[7..7 + 2 * count]);
    l := Limits(Value(bytes[0..2]), Value(bytes[2..4]), Value(bytes[4..6]), words);
    LimitsAt(l, bytes, 0);
    assert bytes[0..] == bytes;
  }

  /** A filter whose length does not fit its field is cut at the length modulo 2^16. */
  lemma CutFilter(f: Filter, bytes: seq<u8>)
    requires WriteFilter(f) <= bytes
    ensures var kept := |f.fingerprints| % U16;
            && WriteFilter(Filter(f.descriptor, f.fingerprints[..kept])) <= bytes
            && Words(f.fingerprints[kept..]) <= bytes[22 + 2 * kept..]
  {
    var kept := |f.fingerprints| % U16;
    var front, back := f.fingerprints[..kept], f.fingerprints[kept..];
    ShortLength(|f.fingerprints|);
    FilterParts(f, bytes);
    assert f.fingerprints == front + back;
    WordsConcat(front, back);
    PrefixParts(Words(front), Words(back), bytes[22..]);
    FilterParts(Filter(f.descriptor, front), bytes);
    assert bytes[22..][2 * kept..] == bytes[22 + 2 * kept..];
  }

  /** A payload whose filter is too large is not refused: it is always read back as another payload,
      with the filter cut short and the limits taken from the fingerprints that were cut off. */
  lemma OversizedFilterIsMisread(p: PayloadV2) returns (q: PayloadV2)
    requires LimitsFit(p.limits) && !FilterFits(p.assets)
    ensures var fps, kept := p.assets.fingerprints, |p.assets.fingerprints| % U16;
            && StartsWithV2(WriteV2(p), q)
            && q.expUnix == p.expUnix && q.nbfUnix == p.nbfUnix
            && q.assets == Filter(p.assets.descriptor, fps[..kept])
            && q.limits.windowLenSec == fps[kept] && q.limits.maxKbps == fps[kept + 1]
            && q.limits.maxConcurrency == fps[kept + 2]
  {
    var bytes, kept := WriteV2(p), |p.assets.fingerprints| % U16;
    var rest := p.assets.fingerprints[kept..];
    var end := 8 + 22 + 2 * kept;
    PartsV2(p, bytes);
    CutFilter(p.assets, bytes[8..]);
    assert bytes[8..][22 + 2 * kept..] == bytes[end..];
    var limits := SomeLimits(bytes[end..]);
    FirstLimits(rest, limits, bytes[end..]);
    q := PayloadV2(p.expUnix, p.nbfUnix, Filter(p.assets.descriptor, p.assets.fingerprints[..kept]), limits);
    PartsV2(q, bytes);
  }

  lemma FirstLimits(words: seq<u16>, l: Limits, bytes: seq<u8>)
    requires |words| >= 3 && LimitsFit(l) && Words(words) <= bytes && WriteLimits(l) <= bytes
    ensures l.windowLenSec == words[0] && l.maxKbps == words[1] && l.maxConcurrency == words[2]
  {
    Widths();
    LimitsParts(l, bytes);
    WordAt(words, 0, bytes);
    WordAt(words, 1, bytes);
    WordAt(words, 2, bytes);
    LeWrittenOnce(l.windowLenSec, words[0], 2, bytes);
    LeWrittenOnce(l.maxKbps, words[1], 2, bytes[2..]);
    LeWrittenOnce(l.maxConcurrency, words[2], 2, bytes[4..]);
  }

  method SerializeV2(p: PayloadV2) returns (result: Result<seq<u8>>)
    ensures result == if LimitsFit(p.limits) then Ok(WriteV2(p)) else Err(TooManyWidths)
  {
    var bytes := [];
    bytes := bytes + Le(p.expUnix, 4);
    bytes := bytes + Le(p.nbfUnix, 4);
    var filterBytes := SerializeFilter(p.assets);
    bytes := bytes + filterBytes;
    result := AppendLimits(bytes, p.limits);
    if LimitsFit(p.limits) {
      assert bytes + WriteLimits(p.limits) == WriteV2(p);
    }
  }

  /** Accepts exactly the bytes that begin with a payload, and gives that payload.  The embedded filter
      is never the reason for a refusal. */
  method DeserializeV2(bytes: seq<u8>) returns (result: Result<PayloadV2>)
    ensures result.Ok? ==> StartsWithV2(bytes, result.value)
    ensures result.Err? ==> forall p: PayloadV2 :: !StartsWithV2(bytes, p)
    ensures result == Err(TooShort) <==> |bytes| < 10
    ensures result == Err(FilterSize) <==> |bytes| >= 10 && |bytes| < FilterEnd(bytes)
    ensures result == Err(PayloadSize) <==> |bytes| >= 10 && FilterEnd(bytes) <= |bytes| < FilterEnd(bytes) + 6
    ensures result.Err? ==> result.error in {TooShort, FilterSize, PayloadSize, MissingWidths, WidthsSize}
  {
    if |bytes| < 10 {
      return Err(TooShort);
    }
    Widths();
    var offset := 0;
    var expUnix := ReadLe(bytes, offset, 4);
    offset := offset + 4;
    var nbfUnix := ReadLe(bytes, offset, 4);
    offset := offset + 4;
    if |bytes| < offset + 2 {
      return Err(MissingFilter);
    }
    var filterLen := ReadLe(bytes, offset, 2);
    ValueOfLe(filterLen, 2);
    var filterTotalLen := 2 + DESCRIPTOR_LEN + 2 * filterLen;
    if |bytes| < offset + filterTotalLen {
      RefusedV2(bytes);
      return Err(FilterSize);
    }
    var filterBytes := bytes[offset..offset + filterTotalLen];
    var filter := DeserializeFilter(filterBytes);
    assert filterBytes[0..2] == bytes[8..10] by {
      assert filterBytes[0] == bytes[8] && filterBytes[1] == bytes[9];
    }
    if filter.Err? {
      return Err(BadFilter);
    }
    offset := offset + filterTotalLen;
    if |bytes| < offset + 6 {
      RefusedV2(bytes);
      return Err(PayloadSize);
    }
    var limits := ReadLimits(bytes, offset);
    if limits.Err? {
      RefusedV2(bytes);
      return Err(limits.error);
    }
    var payload := PayloadV2(expUnix, nbfUnix, filter.value, limits.value);
    AcceptedV2(bytes, payload, offset);
    return Ok(payload);
  }

  /** Writing and reading a payload gives it back exactly when its filter has at most 65535
      fingerprints; otherwise another payload is accepted in its place. */
  method RoundTripV2(p: PayloadV2) returns (result: Result<PayloadV2>)
    ensures !LimitsFit(p.limits) ==> result == Err(TooManyWidths)
    ensures LimitsFit(p.limits) ==> result.Ok? && (result == Ok(p) <==> |p.assets.fingerprints| <= 65535)
  {
    var bytes := SerializeV2(p);
    if bytes.Err? {
      return Err(bytes.error);
    }
    result := DeserializeV2(bytes.value);
    if FitsV2(p) {
      assert StartsWithV2(bytes.value, p);
      V2WrittenOnce(p, result.value, bytes.value);
    } else {
      var q := OversizedFilterIsMisread(p);
    }
  }

  // ---- version 1 ----

  /** The asset id is a string, kept here as its UTF-8 bytes. */
  datatype PayloadV1 = PayloadV1(expUnix: u32, nbfUnix: u32, assetId: seq<u8>, limits: Limits)

  predicate FitsV1(p: PayloadV1) {
    |p.assetId| <= 255 && IsUtf8(p.assetId) && LimitsFit(p.limits)
  }

  function WriteV1(p: PayloadV1): (bytes: seq<u8>)
    requires |p.assetId| <= 255 && LimitsFit(p.limits)
    ensures |bytes| == 9 + |p.assetId| + |WriteLimits(p.limits)|
  {
    Le(p.expUnix, 4) + (Le(p.nbfUnix, 4) + ([|p.assetId|] + (p.assetId + WriteLimits(p.limits))))
  }

  ghost predicate StartsWithV1(bytes: seq<u8>, p: PayloadV1) {
    FitsV1(p) && WriteV1(p) <= bytes
  }

  lemma PartsV1(p: PayloadV1, bytes: seq<u8>)
    requires |p.assetId| <= 255 && LimitsFit(p.limits) && |bytes| >= 9 + |p.assetId|
    ensures WriteV1(p) <= bytes <==>
              && Le(p.expUnix, 4) <= bytes && Le(p.nbfUnix, 4) <= bytes[4..]
              && |p.assetId| == bytes[8] && p.assetId == bytes[9..9 + |p.assetId|]
              && WriteLimits(p.limits) <= bytes[9 + |p.assetId|..]
  {
    var id, limits := p.assetId, WriteLimits(p.limits);
    var named := [|id|] + (id + limits);
    PrefixParts(Le(p.expUnix, 4), Le(p.nbfUnix, 4) + named, bytes);
    PrefixParts(Le(p.nbfUnix, 4), named, bytes[4..]);
    PrefixParts([|id|], id + limits, bytes[8..]);
    PrefixParts(id, limits, bytes[9..]);
    assert bytes[4..][4..] == bytes[8..] && bytes[8..][1..] == bytes[9..] && bytes[9..][|id|..] == bytes[9 + |id|..];
  }

  lemma V1WrittenOnce(p: PayloadV1, q: PayloadV1, bytes: seq<u8>)
    requires StartsWithV1(bytes, p) && StartsWithV1(bytes, q)
    ensures p == q
  {
    Widths();
    PartsV1(p, bytes);
    PartsV1(q, bytes);
    LeWrittenOnce(p.expUnix, q.expUnix, 4, bytes);
    LeWrittenOnce(p.nbfUnix, q.nbfUnix, 4, bytes[4..]);
    LimitsWrittenOnce(p.limits, q.limits, bytes[9 + |p.assetId|..]);
  }

  method SerializeV1(p: PayloadV1) returns (result: Result<seq<u8>>)
    ensures result == if |p.assetId| > 255 then Err(IdTooLong)
                      else if !LimitsFit(p.limits) then Err(TooManyWidths)
                      else Ok(WriteV1(p))
  {
    var bytes := [];
    bytes := bytes + Le(p.expUnix, 4);
    bytes := bytes + Le(p.nbfUnix, 4);
    if |p.assetId| > 255 {
      return Err(IdTooLong);
    }
    bytes := bytes + [|p.assetId|];
    bytes := bytes + p.assetId;
    result := AppendLimits(bytes, p.limits);
    if LimitsFit(p.limits) {
      assert bytes + WriteLimits(p.limits) == WriteV1(p);
    }
  }

  lemma RefusedV1(bytes: seq<u8>, end: nat)
    requires |bytes| >= 9 && end == 9 + bytes[8] as nat
    requires |bytes| < end + 6 || !IsUtf8(bytes[9..end])
             || forall l | LimitsFit(l) :: !(WriteLimits(l) <= bytes[end..])
    ensures forall p: PayloadV1 :: !StartsWithV1(bytes, p)
  {
    forall p: PayloadV1 ensures !StartsWithV1(bytes, p) {
      if StartsWithV1(bytes, p) {
        PartsV1(p, bytes);
      }
    }
  }

  /** Accepts exactly the bytes that begin with a payload, and gives that payload. */
  method DeserializeV1(bytes: seq<u8>) returns (result: Result<PayloadV1>)
    ensures result.Ok? ==> StartsWithV1(bytes, result.value)
    ensures result.Err? ==> forall p: PayloadV1 :: !StartsWithV1(bytes, p)
    ensures result == Err(TooShort) <==> |bytes| < 13
    ensures result == Err(PayloadSize) <==> |bytes| >= 13 && |bytes| < 15 + bytes[8] as nat
    ensures result == Err(BadText) <==>
              |bytes| >= 13 && |bytes| >= 15 + bytes[8] as nat && !IsUtf8(bytes[9..9 + bytes[8] as nat])
    ensures result.Err? ==> result.error in {TooShort, PayloadSize, BadText, MissingWidths, WidthsSize}
  {
    if |bytes| < 13 {
      return Err(TooShort);
    }
    Widths();
    var offset := 0;
    var expUnix := ReadLe(bytes, offset, 4);
    offset := offset + 4;
    var nbfUnix := ReadLe(bytes, offset, 4);
    offset := offset + 4;
    var idLen: nat := bytes[offset];
    offset := offset + 1;
    if |bytes| < offset + idLen + 6 {
      RefusedV1(bytes, offset + idLen);
      return Err(PayloadSize);
    }
    var assetId := bytes[offset..offset + idLen];
    if !IsUtf8(assetId) {
      RefusedV1(bytes, offset + idLen);
      return Err(BadText);
    }
    offset := offset + idLen;
    var limits := ReadLimits(bytes, offset);
    if limits.Err? {
      RefusedV1(bytes, offset);
      return Err(limits.error);
    }
    var payload := PayloadV1(expUnix, nbfUnix, assetId, limits.value);
    PartsV1(payload, bytes);
    return Ok(payload);
  }

  /** Writing and reading gives the payload back whenever it can be written at all. */
  method RoundTripV1(p: PayloadV1) returns (result: Result<PayloadV1>)
    requires IsUtf8(p.assetId)
    ensures result == if |p.assetId| > 255 then Err(IdTooLong)
                      else if !LimitsFit(p.limits) then Err(TooManyWidths)
                      else Ok(p)
  {
    var bytes := SerializeV1(p);
    if bytes.Err? {
      return Err(bytes.error);
    }
    result := DeserializeV1(bytes.value);
    assert StartsWithV1(bytes.value, p);
    V1WrittenOnce(p, result.value, bytes.value);
  }
}
