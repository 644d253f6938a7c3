/** From the assets of a claim to the answer about an asset: a filter is built, travels inside a payload,
    and is asked (`crates/claim/src/payload/payload_v2.rs`, `crates/xorf/src/lib.rs`). */
module ClaimMembership {
  import opened Bits
  import opened ClaimFormat
  import opened ClaimPayload
  import opened FuseBuild
  import opened FuseFilter
  import opened FuseHash

  /** The filter has the array and the descriptor of a layout. */
  ghost predicate LaidOut(f: Filter, ly: Layout) {
    && ly.Valid() && |f.fingerprints| == ly.slots
    && f.descriptor == Descriptor(f.descriptor.seed, ly.segmentLength, ly.mask, ly.segmentCountLength)
  }

  /** The last of the three slots of a key. */
  function LastSlot(f: Filter, key: u64): nat {
    var d := f.descriptor;
    HashOfHash(Mix(key, d.seed), d.segmentLength, d.segmentLengthMask, d.segmentCountLength).2
  }

  lemma LaterBlockIsLarger(a: nat, b: nat, m: nat)
    requires m > 0 && a / m < b / m
    ensures a < b
  {
    assert a == a / m * m + a % m && b == b / m * m + b % m;
    MulMono(a / m + 1, b / m, m);
    assert (a / m + 1) * m == a / m * m + m;
  }

  lemma SlotsAscend(f: Filter, key: u64, ly: Layout)
    requires LaidOut(f, ly)
    ensures var (h0, h1, h2) := HashOfHash(Mix(key, f.descriptor.seed), ly.segmentLength, ly.mask,
              ly.segmentCountLength);
            h0 < h1 < h2 < |f.fingerprints|
  {
    var hash := Mix(key, f.descriptor.seed);
    var (h0, h1, h2) := HashOfHash(hash, ly.segmentLength, ly.mask, ly.segmentCountLength);
    SlotsInConsecutiveSegments(hash, ly.segmentLength, ly.mask, ly.segmentCountLength, ly.slots);
    LaterBlockIsLarger(h0, h1, ly.segmentLength);
    LaterBlockIsLarger(h1, h2, ly.segmentLength);
  }

  /** A filter that was cut short stops on exactly the keys whose last slot was cut off, and answers as
      the whole filter on all others. */
  lemma CutFilterLookup(f: Filter, key: u64, ly: Layout, kept: nat)
    requires LaidOut(f, ly) && kept <= |f.fingerprints|
    ensures ContainsU64(Filter(f.descriptor, f.fingerprints[..kept]), key)
            == if LastSlot(f, key) < kept then ContainsU64(f, key) else OutOfBounds
  {
    SlotsAscend(f, key, ly);
  }

  /** What becomes of the assets of a payload whose filter is too large: the payload that is read in its
      place stops on every key whose last slot is at or past the length modulo 2^16. */
  lemma OversizedLookup(p: PayloadV2, ly: Layout) returns (q: PayloadV2)
    requires LimitsFit(p.limits) && !FilterFits(p.assets) && LaidOut(p.assets, ly)
    ensures StartsWithV2(WriteV2(p), q)
    ensures forall key: u64 ::
              ContainsU64(q.assets, key)
              == if LastSlot(p.assets, key) < ly.slots % U16 then ContainsU64(p.assets, key) else OutOfBounds
  {
    q := OversizedFilterIsMisread(p);
    forall key: u64
      ensures ContainsU64(q.assets, key)
              == if LastSlot(p.assets, key) < ly.slots % U16 then ContainsU64(p.assets, key) else OutOfBounds
    {
      CutFilterLookup(p.assets, key, ly, ly.slots % U16);
    }
  }

  datatype Issued = NotBuilt(why: BuildResult) | Read(payload: Result<PayloadV2>)

  /** Builds a claim for a list of assets, writes it and reads it back.  Every asset is found in what was
      read if the filter fits its length field; otherwise an asset is found exactly if its last slot
      lies in what is left of the array. */
  method IssueAndRead(keys: seq<u64>, segmentLength: u32, requested: u32, random: nat -> u16,
                      expUnix: u32, nbfUnix: u32, limits: Limits)
    returns (issued: Issued, ghost f: Filter)
    requires IsSegmentLength(segmentLength)
    ensures issued.NotBuilt? ==> !issued.why.Built?
    ensures issued.Read? ==> |f.fingerprints| == if keys == [] then 0 else Sizing(segmentLength, requested).0
    ensures issued.Read? && !LimitsFit(limits) ==> issued.payload == Err(TooManyWidths)
    ensures issued.Read? && LimitsFit(limits) ==> issued.payload.Ok?
    ensures issued.Read? && LimitsFit(limits) && |f.fingerprints| <= 65535 ==>
              && issued.payload.value == PayloadV2(expUnix, nbfUnix, f, limits)
              && forall key | key in keys :: ContainsU64(issued.payload.value.assets, key) == Answer(true)
    ensures issued.Read? && LimitsFit(limits) && |f.fingerprints| > 65535 ==>
              forall key | key in keys ::
                ContainsU64(issued.payload.value.assets, key)
                == if LastSlot(f, key) < |f.fingerprints| % U16 then Answer(true) else OutOfBounds
  {
    var built, ly, attempt := TryFromIterator(keys, segmentLength, requested, random);
    if !built.Built? {
      f := Filter(Descriptor(0, 0, 0, 0), []);
      return NotBuilt(built), f;
    }
    f := built.filter;
    var p := PayloadV2(expUnix, nbfUnix, built.filter, limits);
    var bytes := SerializeV2(p);
    if bytes.Err? {
      return Read(Err(bytes.error)), f;
    }
    var payload := DeserializeV2(bytes.value);
    issued := Read(payload);
    if FilterFits(f) {
      assert StartsWithV2(bytes.value, p);
      V2WrittenOnce(p, payload.value, bytes.value);
    } else {
      var q := OversizedLookup(p, ly);
      V2WrittenOnce(q, payload.value, bytes.value);
    }
  }
}
