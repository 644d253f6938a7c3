/** The plaintext header of a claim (`crates/claim/src/header.rs`). */
module ClaimHeader {
  import opened Bits
  import opened Encoding
  import opened ClaimFormat

  const MAGIC: seq<u8> := [0x56, 0x53, 0x43, 0x31]  // "VSC1"
  const HEADER_SIZE: nat := 36

  datatype Header = Header(magic: seq<u8>, version: u8, kid: u8, alg: u8, rsv: u8, nonce: seq<u8>, createAt: nat)

  /** The fixed-size fields have their sizes: 4 and 12 bytes, and a 128-bit number. */
  predicate Shaped(h: Header) {
    |h.magic| == 4 && |h.nonce| == 12 && IsTime(h.createAt)
  }

  predicate IsTime(createAt: nat) {
    createAt < Pow256(16)
  }

  function TimeBytes(createAt: nat): (bytes: seq<u8>)
    ensures |bytes| == 16
  {
    Le(createAt, 16)
  }

  method ReadTime(bytes: seq<u8>) returns (createAt: nat)
    requires |bytes| >= HEADER_SIZE
    ensures IsTime(createAt) && TimeBytes(createAt) == bytes[20..36]
  {
    createAt := ReadLe(bytes, 20, 16);
  }

  lemma TimeWrittenOnce(a: Header, b: Header, bytes: seq<u8>)
    requires Shaped(a) && Shaped(b) && TimeBytes(a.createAt) <= bytes && TimeBytes(b.createAt) <= bytes
    ensures a.createAt == b.createAt
  {
    LeWrittenOnce(a.createAt, b.createAt, 16, bytes);
  }

  function WriteHeader(h: Header): (bytes: seq<u8>)
    requires Shaped(h)
    ensures |bytes| == HEADER_SIZE
  {
    h.magic + ([h.version, h.kid, h.alg, h.rsv] + (h.nonce + TimeBytes(h.createAt)))
  }

  /** The headers that the reader is meant to accept. */
  predicate Known(h: Header) {
    h.magic == MAGIC && (h.version == 1 || h.version == 2)
  }

  /** The magic bytes spell a name. */
  lemma MagicIsText()
    ensures |MAGIC| == |"VSC1"| && forall i | 0 <= i < |MAGIC| :: MAGIC[i] == "VSC1"[i] as nat
  {
    assert 'V' as nat == 0x56 && 'S' as nat == 0x53 && 'C' as nat == 0x43 && '1' as nat == 0x31;
  }

  lemma HeaderParts(h: Header, bytes: seq<u8>)
    requires Shaped(h) && |bytes| >= HEADER_SIZE
    ensures WriteHeader(h) <= bytes <==>
              && h.magic == bytes[0..4] && [h.version, h.kid, h.alg, h.rsv] == bytes[4..8]
              && h.nonce == bytes[8..20] && TimeBytes(h.createAt) == bytes[20..36]
  {
    var flags, tail := [h.version, h.kid, h.alg, h.rsv], h.nonce + TimeBytes(h.createAt);
    PrefixParts(h.magic, flags + tail, bytes);
    PrefixParts(flags, tail, bytes[4..]);
    PrefixParts(h.nonce, TimeBytes(h.createAt), bytes[8..]);
    assert bytes[4..][4..] == bytes[8..] && bytes[8..][12..] == bytes[20..];
  }

  lemma HeaderWrittenOnce(a: Header, b: Header, bytes: seq<u8>)
    requires Shaped(a) && Shaped(b) && WriteHeader(a) <= bytes && WriteHeader(b) <= bytes
    ensures a == b
  {
    HeaderParts(a, bytes);
    HeaderParts(b, bytes);
    TimeWrittenOnce(a, b, bytes[20..36]);
    assert bytes[4..8][0] == a.version && bytes[4..8][1] == a.kid && bytes[4..8][2] == a.alg && bytes[4..8][3] == a.rsv;
  }

  method ToBytes(h: Header) returns (bytes: seq<u8>)
    requires Shaped(h)
    ensures bytes == WriteHeader(h)
  {
    bytes := [];
    bytes := bytes + h.magic;
    bytes := bytes + [h.version];
    bytes := bytes + [h.kid];
    bytes := bytes + [h.alg];
    bytes := bytes + [h.rsv];
    bytes := bytes + h.nonce;
    bytes := bytes + TimeBytes(h.createAt);
  }

  /** Accepts exactly the bytes that begin with a known header, and gives that header. */
  method FromBytes(bytes: seq<u8>) returns (result: Result<Header>)
    ensures result.Ok? ==> Shaped(result.value) && Known(result.value) && WriteHeader(result.value) <= bytes
    ensures result.Err? ==> forall h | Shaped(h) && Known(h) :: !(WriteHeader(h) <= bytes)
    ensures result == Err(HeaderSize) <==> |bytes| < HEADER_SIZE
    ensures result == Err(BadMagic) <==> |bytes| >= HEADER_SIZE && bytes[0..4] != MAGIC
    ensures result.Err? ==> result.error in {HeaderSize, BadMagic, BadVersion}
  {
    if |bytes| < HEADER_SIZE {
      return Err(HeaderSize);
    }
    var magic := bytes[0..4];
    if magic != MAGIC {
      UnknownHeader(bytes);
      return Err(BadMagic);
    }
    var version := bytes[4];
    if version != 1 && version != 2 {
      UnknownHeader(bytes);
      return Err(BadVersion);
    }
    var header := ReadFields(bytes);
    return Ok(header);
  }

  method ReadFields(bytes: seq<u8>) returns (h: Header)
    requires |bytes| >= HEADER_SIZE
    ensures Shaped(h) && WriteHeader(h) <= bytes
    ensures h.magic == bytes[0..4] && h.version == bytes[4]
  {
    var createAt := ReadTime(bytes);
    var magic, nonce := bytes[0..4], bytes[8..20];
    h := Header(magic, bytes[4], bytes[5], bytes[6], bytes[7], nonce, createAt);
    HeaderAt(h, bytes);
  }

  lemma UnknownHeader(bytes: seq<u8>)
    requires |bytes| >= HEADER_SIZE
    requires bytes[0..4] != MAGIC || bytes[4] !in {1, 2}
    ensures forall h | Shaped(h) && Known(h) :: !(WriteHeader(h) <= bytes)
  {
    forall h | Shaped(h) && Known(h) ensures !(WriteHeader(h) <= bytes) {
      HeaderParts(h, bytes);
      assert bytes[4..8][0] == bytes[4];
    }
  }

  lemma HeaderAt(h: Header, bytes: seq<u8>)
    requires |bytes| >= HEADER_SIZE && Shaped(h) && h.magic == bytes[0..4]
    requires h.version == bytes[4] && h.kid == bytes[5] && h.alg == bytes[6] && h.rsv == bytes[7]
    requires h.nonce == bytes[8..20] && TimeBytes(h.createAt) == bytes[20..36]
    ensures WriteHeader(h) <= bytes
  {
    HeaderParts(h, bytes);
  }

  /** The key under which a claim's bandwidth bucket is kept: its nonce and its creation time. */
  method BucketKey(h: Header) returns (key: seq<u8>)
    requires Shaped(h)
    ensures key == WriteHeader(h)[8..36]
  {
    var keyBytes := new u8[28](_ => 0);
    forall i | 0 <= i < 12 {
      keyBytes[i] := h.nonce[i];
    }
    var time := TimeBytes(h.createAt);
    forall i | 12 <= i < 28 {
      keyBytes[i] := time[i - 12];
    }
    HeaderParts(h, WriteHeader(h));
    key := keyBytes[..];
    assert WriteHeader(h)[8..36] == h.nonce + time;
  }

  /** Two headers share a bucket only if they have the same nonce and creation time. */
  lemma BucketKeysDiffer(a: Header, b: Header)
    requires Shaped(a) && Shaped(b)
    ensures WriteHeader(a)[8..36] == WriteHeader(b)[8..36] <==> a.nonce == b.nonce && a.createAt == b.createAt
  {
    var x, y := WriteHeader(a), WriteHeader(b);
    HeaderParts(a, x);
    HeaderParts(b, y);
    assert x[8..36] == x[8..20] + x[20..36] && y[8..36] == y[8..20] + y[20..36];
    if x[8..36] == y[8..36] {
      assert x[8..20] == x[8..36][..12] == y[8..20] && x[20..36] == x[8..36][12..] == y[20..36];
      TimeWrittenOnce(a, b, x[20..36]);
    }
  }

  /** Any header can be written; it is read back exactly if it is one of the known ones. */
  method HeaderRoundTrip(h: Header) returns (result: Result<Header>)
    requires Shaped(h)
    ensures result == Ok(h) <==> Known(h)
    ensures result.Ok? <==> Known(h)
  {
    var bytes := ToBytes(h);
    result := FromBytes(bytes);
    if result.Ok? {
      HeaderWrittenOnce(h, result.value, bytes);
    }
  }
}
