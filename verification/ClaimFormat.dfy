/** The binary formats of a claim: the embedded filter (`crates/xorf/src/lib.rs`), the two payload
    versions (`crates/claim/src/payload`) and the header (`crates/claim/src/header.rs`).

    Each format is given by what is written; reading is specified against that alone. */
module ClaimFormat {
  import opened Bits
  import opened Encoding
  import opened FuseHash
  import opened FuseFilter

  datatype Result<T> = Ok(value: T) | Err(error: Error)

  datatype Error =
    | TooShort | WrongLength | MissingFilter | FilterSize | BadFilter | PayloadSize | BadText
    | MissingWidths | WidthsSize | TooManyWidths | IdTooLong | HeaderSize | BadMagic | BadVersion

  // ---- the embedded filter ----

  const DESCRIPTOR_LEN: nat := 20

  function WriteDescriptor(d: Descriptor): (bytes: seq<u8>)
    ensures |bytes| == DESCRIPTOR_LEN
  {
    Le(d.seed, 8) + (Le(d.segmentLength, 4) + (Le(d.segmentLengthMask, 4) + Le(d.segmentCountLength, 4)))
  }

  /** The length field has 16 bits, however many fingerprints follow. */
  function WriteFilter(f: Filter): (bytes: seq<u8>)
    ensures |bytes| == 2 + DESCRIPTOR_LEN + 2 * |f.fingerprints|
  {
    Le(|f.fingerprints|, 2) + (WriteDescriptor(f.descriptor) + Words(f.fingerprints))
  }

  predicate FilterFits(f: Filter) {
    |f.fingerprints| < U16
  }

  lemma DescriptorWrittenOnce(a: Descriptor, b: Descriptor, bytes: seq<u8>)
    requires WriteDescriptor(a) <= bytes && WriteDescriptor(b) <= bytes
    ensures a == b
  {
    Widths();
    DescriptorParts(a, bytes);
    DescriptorParts(b, bytes);
    LeWrittenOnce(a.seed, b.seed, 8, bytes);
    LeWrittenOnce(a.segmentLength, b.segmentLength, 4, bytes[8..]);
    LeWrittenOnce(a.segmentLengthMask, b.segmentLengthMask, 4, bytes[12..]);
    LeWrittenOnce(a.segmentCountLength, b.segmentCountLength, 4, bytes[16..]);
  }

  lemma DescriptorParts(d: Descriptor, bytes: seq<u8>)
    requires |bytes| >= 20
    ensures WriteDescriptor(d) <= bytes <==>
              && Le(d.seed, 8) <= bytes && Le(d.segmentLength, 4) <= bytes[8..]
              && Le(d.segmentLengthMask, 4) <= bytes[12..] && Le(d.segmentCountLength, 4) <= bytes[16..]
  {
    var last := Le(d.segmentCountLength, 4);
    var third := Le(d.segmentLengthMask, 4) + last;
    var second := Le(d.segmentLength, 4) + third;
    PrefixParts(Le(d.seed, 8), second, bytes);
    PrefixParts(Le(d.segmentLength, 4), third, bytes[8..]);
    PrefixParts(Le(d.segmentLengthMask, 4), last, bytes[12..]);
    assert bytes[8..][4..] == bytes[12..] && bytes[12..][4..] == bytes[16..];
  }

  lemma FilterParts(f: Filter, bytes: seq<u8>)
    requires |bytes| >= 2 + DESCRIPTOR_LEN
    ensures WriteFilter(f) <= bytes <==>
              && Le(|f.fingerprints|, 2) <= bytes && WriteDescriptor(f.descriptor) <= bytes[2..]
              && Words(f.fingerprints) <= bytes[22..]
  {
    var rest := WriteDescriptor(f.descriptor) + Words(f.fingerprints);
    PrefixParts(Le(|f.fingerprints|, 2), rest, bytes);
    PrefixParts(WriteDescriptor(f.descriptor), Words(f.fingerprints), bytes[2..]);
    assert bytes[2..][20..] == bytes[22..];
  }

  /** Bytes start with at most one filter. */
  lemma FilterWrittenOnce(f: Filter, g: Filter, bytes: seq<u8>)
    requires FilterFits(f) && FilterFits(g) && WriteFilter(f) <= bytes && WriteFilter(g) <= bytes
    ensures f == g
  {
    Widths();
    FilterParts(f, bytes);
    FilterParts(g, bytes);
    LeWrittenOnce(|f.fingerprints|, |g.fingerprints|, 2, bytes);
    DescriptorWrittenOnce(f.descriptor, g.descriptor, bytes[2..]);
    WordsWrittenOnce(f.fingerprints, g.fingerprints, bytes[22..]);
  }

  /** What the length field of written filter bytes says. */
  lemma FilterLength(f: Filter, bytes: seq<u8>)
    requires WriteFilter(f) <= bytes
    ensures Value(bytes[0..2]) == |f.fingerprints| % U16
  {
    FilterParts(f, bytes);
    ShortLength(|f.fingerprints|);
    assert bytes[0..2] == Le(|f.fingerprints|, 2);
  }

  method SerializeFilter(f: Filter) returns (bytes: seq<u8>)
    ensures bytes == WriteFilter(f)
  {
    var len := |f.fingerprints| % U16;
    ShortLength(|f.fingerprints|);
    bytes := Le(len, 2);
    bytes := bytes + Le(f.descriptor.seed, 8);
    bytes := bytes + Le(f.descriptor.segmentLength, 4);
    bytes := bytes + Le(f.descriptor.segmentLengthMask, 4);
    bytes := bytes + Le(f.descriptor.segmentCountLength, 4);
    assert bytes == Le(len, 2) + WriteDescriptor(f.descriptor);
    bytes := WriteWords(bytes, f.fingerprints);
  }

  method ReadDescriptor(bytes: seq<u8>, start: nat) returns (d: Descriptor)
    requires start + DESCRIPTOR_LEN <= |bytes|
    ensures WriteDescriptor(d) == bytes[start..start + DESCRIPTOR_LEN]
  {
    Widths();
    var seed := ReadLe(bytes, start, 8);
    var segmentLength := ReadLe(bytes, start + 8, 4);
    var mask := ReadLe(bytes, start + 12, 4);
    var segmentCountLength := ReadLe(bytes, start + 16, 4);
    d := Descriptor(seed, segmentLength, mask, segmentCountLength);
    DescriptorAt(d, bytes, start);
  }

  lemma DescriptorAt(d: Descriptor, bytes: seq<u8>, start: nat)
    requires start + DESCRIPTOR_LEN <= |bytes|
    requires Le(d.seed, 8) == bytes[start..start + 8] && Le(d.segmentLength, 4) == bytes[start + 8..start + 12]
    requires Le(d.segmentLengthMask, 4) == bytes[start + 12..start + 16]
    requires Le(d.segmentCountLength, 4) == bytes[start + 16..start + 20]
    ensures WriteDescriptor(d) == bytes[start..start + DESCRIPTOR_LEN]
  {
    var b := bytes[start..start + DESCRIPTOR_LEN];
    DescriptorParts(d, b);
    assert b[..DESCRIPTOR_LEN] == b;
  }

  lemma FilterAt(f: Filter, bytes: seq<u8>)
    requires |bytes| == 22 + 2 * |f.fingerprints|
    requires Le(|f.fingerprints|, 2) == bytes[0..2] && WriteDescriptor(f.descriptor) == bytes[2..22]
    requires Words(f.fingerprints) == bytes[22..]
    ensures WriteFilter(f) == bytes
  {
    FilterParts(f, bytes);
    assert WriteFilter(f) == bytes[..|bytes|];
  }

  /** Exactly the bytes of a filter that fits are accepted, and give that filter. */
  method DeserializeFilter(bytes: seq<u8>) returns (result: Result<Filter>)
    ensures result.Ok? ==> FilterFits(result.value) && WriteFilter(result.value) == bytes
    ensures result.Err? ==> forall f | FilterFits(f) :: WriteFilter(f) != bytes
    ensures result == Err(TooShort) <==> |bytes| < 22
    ensures result == Err(WrongLength) <==> |bytes| >= 22 && |bytes| != 22 + 2 * Value(bytes[0..2])
    ensures result.Err? ==> result.error in {TooShort, WrongLength}
  {
    if |bytes| < 22 {
      return Err(TooShort);
    }
    var offset := 0;
    var len := ReadLe(bytes, offset, 2);
    Widths();
    ValueOfLe(len, 2);
    offset := offset + 2;
    if |bytes| != 2 + DESCRIPTOR_LEN + 2 * len {
      NoFilterOfThisLength(bytes);
      return Err(WrongLength);
    }
    var descriptor := ReadDescriptor(bytes, offset);
    offset := offset + DESCRIPTOR_LEN;
    var fingerprints, end := ReadWords(bytes, offset, len);
    assert bytes[22..end] == bytes[22..];
    var filter := Filter(descriptor, fingerprints);
    FilterAt(filter, bytes);
    return Ok(filter);
  }

  lemma NoFilterOfThisLength(bytes: seq<u8>)
    requires |bytes| >= 22 && |bytes| != 22 + 2 * Value(bytes[0..2])
    ensures forall f | FilterFits(f) :: WriteFilter(f) != bytes
  {
    forall f | FilterFits(f) ensures WriteFilter(f) != bytes {
      if WriteFilter(f) == bytes {
        FilterLength(f, bytes);
      }
    }
  }

  /** Storing and loading a filter gives it back exactly when it has at most 65535 fingerprints; a larger
      one is refused. */
  method FilterRoundTrip(f: Filter) returns (result: Result<Filter>)
    ensures |f.fingerprints| <= 65535 ==> result == Ok(f)
    ensures |f.fingerprints| > 65535 ==> result == Err(WrongLength)
  {
    var bytes := SerializeFilter(f);
    result := DeserializeFilter(bytes);
    FilterLength(f, bytes);
    if result.Ok? {
      FilterLength(result.value, bytes);
      if FilterFits(f) {
        FilterWrittenOnce(f, result.value, bytes);
      }
    }
  }

  // ---- the limits at the end of a payload ----

  datatype Limits = Limits(windowLenSec: u16, maxKbps: u16, maxConcurrency: u16, allowedWidths: seq<u16>)

  predicate LimitsFit(l: Limits) {
    |l.allowedWidths| <= 255
  }

  function WriteLimits(l: Limits): (bytes: seq<u8>)
    requires LimitsFit(l)
    ensures |bytes| == 7 + 2 * |l.allowedWidths|
  {
    Le(l.windowLenSec, 2) + (Le(l.maxKbps, 2) + (Le(l.maxConcurrency, 2)
      + ([|l.allowedWidths|] + Words(l.allowedWidths))))
  }

  lemma LimitsParts(l: Limits, bytes: seq<u8>)
    requires LimitsFit(l) && |bytes| >= 7
    ensures WriteLimits(l) <= bytes <==>
              && Le(l.windowLenSec, 2) <= bytes && Le(l.maxKbps, 2) <= bytes[2..]
              && Le(l.maxConcurrency, 2) <= bytes[4..] && |l.allowedWidths| == bytes[6]
              && Words(l.allowedWidths) <= bytes[7..]
  {
    var last := Words(l.allowedWidths);
    var fourth := [|l.allowedWidths|] + last;
    var third := Le(l.maxConcurrency, 2) + fourth;
    var second := Le(l.maxKbps, 2) + third;
    PrefixParts(Le(l.windowLenSec, 2), second, bytes);
    PrefixParts(Le(l.maxKbps, 2), third, bytes[2..]);
    PrefixParts(Le(l.maxConcurrency, 2), fourth, bytes[4..]);
    PrefixParts([|l.allowedWidths|], last, bytes[6..]);
    assert bytes[2..][2..] == bytes[4..] && bytes[4..][2..] == bytes[6..] && bytes[6..][1..] == bytes[7..];
  }

  lemma LimitsWrittenOnce(a: Limits, b: Limits, bytes: seq<u8>)
    requires LimitsFit(a) && LimitsFit(b) && WriteLimits(a) <= bytes && WriteLimits(b) <= bytes
    ensures a == b
  {
    Widths();
    LimitsParts(a, bytes);
    LimitsParts(b, bytes);
    LeWrittenOnce(a.windowLenSec, b.windowLenSec, 2, bytes);
    LeWrittenOnce(a.maxKbps, b.maxKbps, 2, bytes[2..]);
    LeWrittenOnce(a.maxConcurrency, b.maxConcurrency, 2, bytes[4..]);
    WordsWrittenOnce(a.allowedWidths, b.allowedWidths, bytes[7..]);
  }

  method AppendLimits(bytes: seq<u8>, l: Limits) returns (result: Result<seq<u8>>)
    ensures result == if LimitsFit(l) then Ok(bytes + WriteLimits(l)) else Err(TooManyWidths)
  {
    var all := bytes;
    all := all + Le(l.windowLenSec, 2);
    all := all + Le(l.maxKbps, 2);
    all := all + Le(l.maxConcurrency, 2);
    if |l.allowedWidths| > 255 {
      return Err(TooManyWidths);
    }
    all := all + [|l.allowedWidths|];
    all := WriteWords(all, l.allowedWidths);
    assert all == bytes + WriteLimits(l);
    return Ok(all);
  }

  /** Accepts whatever starts with written limits; the six bytes before the count are known to be there. */
  method ReadLimits(bytes: seq<u8>, start: nat) returns (result: Result<Limits>)
    requires start + 6 <= |bytes|
    ensures result.Ok? ==> LimitsFit(result.value) && WriteLimits(result.value) <= bytes[start..]
    ensures result.Err? ==> forall l | LimitsFit(l) :: !(WriteLimits(l) <= bytes[start..])
    ensures result == Err(MissingWidths) <==> |bytes| == start + 6
    ensures result == Err(WidthsSize) <==> |bytes| > start + 6 && |bytes| < start + 7 + 2 * (bytes[start + 6] as nat)
    ensures result.Err? ==> result.error in {MissingWidths, WidthsSize}
  {
    var offset := start;
    var windowLenSec := ReadLe(bytes, offset, 2);
    var maxKbps := ReadLe(bytes, offset + 2, 2);
    var maxConcurrency := ReadLe(bytes, offset + 4, 2);
    Widths();
    offset := offset + 6;
    if offset >= |bytes| {
      return Err(MissingWidths);
    }
    var count: nat := bytes[offset];
    offset := offset + 1;
    if |bytes| < offset + 2 * count {
      forall l | LimitsFit(l) ensures !(WriteLimits(l) <= bytes[start..]) {
        LimitsParts(l, bytes[start..]);
      }
      return Err(WidthsSize);
    }
    var widths, end := ReadWords(bytes, offset, count);
    var limits := Limits(windowLenSec, maxKbps, maxConcurrency, widths);
    LimitsAt(limits, bytes, start);
    return Ok(limits);
  }

  lemma LimitsAt(l: Limits, bytes: seq<u8>, start: nat)
    requires LimitsFit(l) && start + 7 + 2 * |l.allowedWidths| <= |bytes|
    requires Le(l.windowLenSec, 2) == bytes[start..start + 2] && Le(l.maxKbps, 2) == bytes[start + 2..start + 4]
    requires Le(l.maxConcurrency, 2) == bytes[start + 4..start + 6] && |l.allowedWidths| == bytes[start + 6]
    requires Words(l.allowedWidths) == bytes[start + 7..start + 7 + 2 * |l.allowedWidths|]
    ensures WriteLimits(l) <= bytes[start..]
  {
    LimitsParts(l, bytes[start..]);
  }
}
