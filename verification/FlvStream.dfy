/** Pure view of an FLV byte stream (Adobe Flash Video File Format Specification v10.1, annex E.2 to
    E.4.1): how the tag reader consumes it, and that the way the bytes are cut into writes and the
    moments at which tags are asked for do not matter. */
module FlvStream {
  import opened Bits
  import opened Options

  const FLV_HEADER_LENGTH: nat := 9
  const FLV_TAG_HEADER_LENGTH: nat := 11
  const PREVIOUS_TAG_SIZE_LENGTH: nat := 4
  const U24: nat := 0x100_0000

  type u24 = x: nat | x < U24

  datatype FlvTag = FlvTag(tagType: u8, dataSize: u32, timestamp: u32, timestampExt: u8, streamId: u32,
                           data: seq<u8>, previousTagSize: u32)

  function BigEndian24(b0: u8, b1: u8, b2: u8): u24 {
    b0 * 0x1_0000 + b1 * 0x100 + b2
  }

  // ---- the file header ----

  predicate IsFlvHeader(s: seq<u8>)
    requires |s| >= FLV_HEADER_LENGTH
  {
    && s[0] == 0x46 && s[1] == 0x4C && s[2] == 0x56
    && s[3] == 1
    && (s[4] == 1 || s[4] == 4 || s[4] == 5)
    && s[5] == 0 && s[6] == 0 && s[7] == 0 && s[8] == 9
  }

  /** Bytes dropped before the first tag: the header and the first back pointer, or only four bytes
      when there is no valid header. */
  function HeaderSkip(s: seq<u8>): nat
    requires |s| >= FLV_HEADER_LENGTH
  {
    if IsFlvHeader(s) then FLV_HEADER_LENGTH + PREVIOUS_TAG_SIZE_LENGTH else PREVIOUS_TAG_SIZE_LENGTH
  }

  // ---- tags ----

  function DataSize(s: seq<u8>): u24
    requires |s| >= FLV_TAG_HEADER_LENGTH
  {
    BigEndian24(s[1], s[2], s[3])
  }

  function TotalTagSize(s: seq<u8>): nat
    requires |s| >= FLV_TAG_HEADER_LENGTH
  {
    FLV_TAG_HEADER_LENGTH + DataSize(s) + PREVIOUS_TAG_SIZE_LENGTH
  }

  predicate HasTag(s: seq<u8>) {
    |s| >= FLV_TAG_HEADER_LENGTH && |s| >= TotalTagSize(s)
  }

  /** The tag at the front; the stream id and the stored back pointer are not looked at. */
  function FirstTag(s: seq<u8>): FlvTag
    requires HasTag(s)
  {
    FlvTag(s[0], DataSize(s), BigEndian24(s[4], s[5], s[6]), s[7], 0,
           s[FLV_TAG_HEADER_LENGTH..FLV_TAG_HEADER_LENGTH + DataSize(s)], FLV_TAG_HEADER_LENGTH + DataSize(s))
  }

  /** All complete tags of a stream whose header is out of the way. */
  function Tags(s: seq<u8>): seq<FlvTag>
    decreases |s|
  {
    if HasTag(s) then [FirstTag(s)] + Tags(s[TotalTagSize(s)..]) else []
  }

  // ---- the reader as a state machine on the pending bytes ----

  datatype Reader = Reader(pending: seq<u8>, parsed: bool)

  const Fresh := Reader([], false)

  function Write(r: Reader, data: seq<u8>): Reader {
    r.(pending := r.pending + data)
  }

  /** The header is dropped as soon as a tag header's worth of bytes is there; it needs two more. */
  predicate HeaderRunsPast(r: Reader) {
    && !r.parsed && |r.pending| >= FLV_TAG_HEADER_LENGTH
    && HeaderSkip(r.pending) > |r.pending|
  }

  function DropHeader(r: Reader): Reader
    requires |r.pending| >= FLV_TAG_HEADER_LENGTH && !HeaderRunsPast(r)
  {
    if r.parsed then r else Reader(r.pending[HeaderSkip(r.pending)..], true)
  }

  function Take(r: Reader): (Reader, Option<FlvTag>)
    requires !HeaderRunsPast(r)
  {
    if |r.pending| < FLV_TAG_HEADER_LENGTH then (r, None)
    else
      var r' := DropHeader(r);
      if HasTag(r'.pending) then (r'.(pending := r'.pending[TotalTagSize(r'.pending)..]), Some(FirstTag(r'.pending)))
      else (r', None)
  }

  /** The tags a reader still has to give if nothing more arrives. */
  function TagsAhead(r: Reader): seq<FlvTag> {
    if r.parsed then Tags(r.pending)
    else if |r.pending| < FLV_TAG_HEADER_LENGTH || HeaderRunsPast(r) then []
    else Tags(DropHeader(r).pending)
  }

  // ---- more bytes never change the tags already complete ----

  lemma FirstTagExtends(s: seq<u8>, t: seq<u8>)
    requires HasTag(s)
    ensures HasTag(s + t) && FirstTag(s + t) == FirstTag(s)
    ensures TotalTagSize(s + t) == TotalTagSize(s)
    ensures (s + t)[TotalTagSize(s)..] == s[TotalTagSize(s)..] + t
  {
    var n := DataSize(s);
    assert (s + t)[11..11 + n] == s[11..11 + n];
  }

  lemma HeaderExtends(s: seq<u8>, t: seq<u8>)
    requires |s| >= FLV_HEADER_LENGTH
    ensures HeaderSkip(s + t) == HeaderSkip(s)
  {
  }

  /** One request: the tag given is the next tag ahead, whatever arrives later. */
  lemma TakeIsNext(r: Reader, future: seq<u8>)
    requires !HeaderRunsPast(r)
    ensures var (r', tag) := Take(r);
            TagsAhead(Write(r, future))
            == (if tag.Some? then [tag.value] else []) + TagsAhead(Write(r', future))
  {
    if |r.pending| >= FLV_TAG_HEADER_LENGTH {
      var d := DropHeader(r);
      if !r.parsed {
        HeaderExtends(r.pending, future);
        assert (r.pending + future)[HeaderSkip(r.pending)..] == d.pending + future;
      }
      assert TagsAhead(Write(r, future)) == Tags(d.pending + future);
      if HasTag(d.pending) {
        FirstTagExtends(d.pending, future);
      }
    }
  }

  // ---- whole runs ----

  datatype Op = Feed(data: seq<u8>) | Ask

  function Step(r: Reader, op: Op): (Reader, seq<FlvTag>)
    requires op.Ask? ==> !HeaderRunsPast(r)
  {
    match op
    case Feed(data) => (Write(r, data), [])
    case Ask =>
      var (r', tag) := Take(r);
      (r', if tag.Some? then [tag.value] else [])
  }

  /** No request falls into the gap where the header runs past the bytes that are there. */
  predicate Smooth(r: Reader, ops: seq<Op>)
    decreases |ops|
  {
    ops == [] || ((ops[0].Ask? ==> !HeaderRunsPast(r)) && Smooth(Step(r, ops[0]).0, ops[1..]))
  }

  /** Final state and tags given, in order. */
  function Run(r: Reader, ops: seq<Op>): (Reader, seq<FlvTag>)
    requires Smooth(r, ops)
    decreases |ops|
  {
    if ops == [] then (r, [])
    else
      var (r', tags) := Step(r, ops[0]);
      var (r'', more) := Run(r', ops[1..]);
      (r'', tags + more)
  }

  function Fed(ops: seq<Op>): seq<u8> {
    if ops == [] then [] else (if ops[0].Feed? then ops[0].data else []) + Fed(ops[1..])
  }

  /** However the bytes are cut and whenever tags are asked for, the tags given so far followed by the
      tags still ahead are the tags of the whole stream. */
  lemma {:induction false} ChunkingDoesNotMatter(r: Reader, ops: seq<Op>)
    requires Smooth(r, ops)
    ensures var (r', tags) := Run(r, ops);
            TagsAhead(Write(r, Fed(ops))) == tags + TagsAhead(r')
    decreases |ops|
  {
    if ops == [] {
      assert r.pending + [] == r.pending;
    } else {
      var (r1, tags1) := Step(r, ops[0]);
      var (r2, more) := Run(r1, ops[1..]);
      var rest := Fed(ops[1..]);
      ChunkingDoesNotMatter(r1, ops[1..]);
      StepIsNext(r, ops[0], rest);
      assert TagsAhead(Write(r, Fed(ops))) == tags1 + (more + TagsAhead(r2));
    }
  }

  lemma StepIsNext(r: Reader, op: Op, future: seq<u8>)
    requires op.Ask? ==> !HeaderRunsPast(r)
    ensures var (r', tags) := Step(r, op);
            TagsAhead(Write(r, (if op.Feed? then op.data else []) + future)) == tags + TagsAhead(Write(r', future))
  {
    match op
    case Feed(data) =>
      assert r.pending + (data + future) == r.pending + data + future;
    case Ask =>
      TakeIsNext(r, future);
      assert [] + future == future;
  }

  /** A request that gives nothing means that every complete tag has been given. */
  lemma NoneMeansDrained(r: Reader)
    requires !HeaderRunsPast(r) && Take(r).1.None?
    ensures TagsAhead(Take(r).0) == []
  {
  }

  /** From the start of a stream to a request that gives nothing: exactly the tags of the stream. */
  lemma DrainedRunGivesAllTags(ops: seq<Op>)
    requires Smooth(Fresh, ops) && !HeaderRunsPast(Run(Fresh, ops).0)
    requires Take(Run(Fresh, ops).0).1.None?
    ensures Run(Fresh, ops).1 == TagsAhead(Reader(Fed(ops), false))
  {
    var (r, tags) := Run(Fresh, ops);
    ChunkingDoesNotMatter(Fresh, ops);
    assert [] + Fed(ops) == Fed(ops);
    TakeIsNext(r, []);
    assert Write(r, []) == r && Write(Take(r).0, []) == Take(r).0;
    NoneMeansDrained(r);
  }

  /** A first request made with 13 bytes or more, or before 11 bytes, never falls into the gap. */
  lemma EnoughBytesIsSmooth(r: Reader)
    ensures HeaderRunsPast(r) <==> !r.parsed && 11 <= |r.pending| < 13 && IsFlvHeader(r.pending)
  {
  }

  // ---- writing tags ----

  /** Byte k of a 32-bit number, counted from the low end. */
  function ByteOf(x: u32, k: nat): u8
    requires k < 4
  {
    (if k == 0 then x else if k == 1 then x / 0x100 else if k == 2 then x / 0x1_0000 else x / 0x100_0000) % 256
  }

  lemma ThreeBytes(x: u24)
    ensures BigEndian24(ByteOf(x, 2), ByteOf(x, 1), ByteOf(x, 0)) == x
  {
    var high := x / 0x100;
    assert x == high * 0x100 + x % 0x100;
    assert high == (high / 0x100) * 0x100 + high % 0x100;
    assert high / 0x100 == x / 0x1_0000 < 0x100;
  }

  /** The 11 bytes of a tag header; the three-byte fields keep the low 24 bits. */
  function TagHeaderBytes(t: FlvTag): (b: seq<u8>)
    ensures |b| == FLV_TAG_HEADER_LENGTH
  {
    [t.tagType,
     ByteOf(t.dataSize, 2), ByteOf(t.dataSize, 1), ByteOf(t.dataSize, 0),
     ByteOf(t.timestamp, 2), ByteOf(t.timestamp, 1), ByteOf(t.timestamp, 0),
     t.timestampExt,
     ByteOf(t.streamId, 2), ByteOf(t.streamId, 1), ByteOf(t.streamId, 0)]
  }

  function BackPointerBytes(t: FlvTag): (b: seq<u8>)
    ensures |b| == PREVIOUS_TAG_SIZE_LENGTH
  {
    var x := t.previousTagSize;
    [ByteOf(x, 3), ByteOf(x, 2), ByteOf(x, 1), ByteOf(x, 0)]
  }

  /** Header, data and back pointer of one tag. */
  function TagBytes(t: FlvTag): seq<u8> {
    TagHeaderBytes(t) + t.data + BackPointerBytes(t)
  }

  /** A tag whose size fields tell the truth and fit their three bytes. */
  predicate WellFormedTag(t: FlvTag) {
    && t.dataSize == |t.data| < U24
    && t.timestamp < U24
    && t.streamId == 0
    && t.previousTagSize == FLV_TAG_HEADER_LENGTH + |t.data|
  }

  lemma TagRoundTrip(t: FlvTag, rest: seq<u8>)
    requires WellFormedTag(t)
    ensures HasTag(TagBytes(t) + rest)
    ensures FirstTag(TagBytes(t) + rest) == t
    ensures (TagBytes(t) + rest)[TotalTagSize(TagBytes(t) + rest)..] == rest
  {
    var head, back := TagHeaderBytes(t), BackPointerBytes(t);
    ThreeBytes(t.dataSize);
    ThreeBytes(t.timestamp);
    var s := TagBytes(t) + rest;
    assert s[..11] == head;
    assert forall k | 0 <= k < 11 :: s[k] == head[k];
    assert DataSize(s) == |t.data|;
    assert s[11..11 + |t.data|] == t.data;
  }

  /** Writing a tag back that was read gives the bytes it was read from, with the ignored fields put
      right: the stream id is zero, and the last four bytes are the size of the tag, highest byte first. */
  lemma RewrittenTag(s: seq<u8>)
    requires HasTag(s)
    ensures var n, t := DataSize(s), FirstTag(s);
            && WellFormedTag(t) && |TagBytes(t)| == 11 + n + 4
            && TagBytes(t)[..11 + n] == s[..8] + [0, 0, 0] + s[11..11 + n]
            && BigEndian32(TagBytes(t)[11 + n..]) == 11 + n
  {
    RewrittenHeader(s);
    FourBytes(11 + DataSize(s));
    ThreeParts(TagHeaderBytes(FirstTag(s)), FirstTag(s).data, BackPointerBytes(FirstTag(s)));
  }

  lemma RewrittenHeader(s: seq<u8>)
    requires HasTag(s)
    ensures WellFormedTag(FirstTag(s)) && TagHeaderBytes(FirstTag(s)) == s[..8] + [0, 0, 0]
  {
    BytesOfThree(s[1], s[2], s[3]);
    BytesOfThree(s[4], s[5], s[6]);
  }

  lemma ThreeParts(a: seq<u8>, b: seq<u8>, c: seq<u8>)
    ensures (a + b + c)[..|a| + |b|] == a + b && (a + b + c)[|a| + |b|..] == c
  {
  }

  /** The number that four bytes write, highest byte first. */
  function BigEndian32(b: seq<u8>): nat
    requires |b| == 4
  {
    ((b[0] as nat * 0x100 + b[1] as nat) * 0x100 + b[2] as nat) * 0x100 + b[3] as nat
  }

  lemma FourBytes(x: u32)
    ensures BigEndian32([ByteOf(x, 3), ByteOf(x, 2), ByteOf(x, 1), ByteOf(x, 0)]) == x
  {
    var a, b, c := x / 0x100, x / 0x1_0000, x / 0x100_0000;
    assert x == a * 0x100 + x % 0x100;
    assert a == b * 0x100 + a % 0x100 && b == a / 0x100;
    assert b == c * 0x100 + b % 0x100 && c == b / 0x100;
    assert c < 0x100;
  }

  /** Which bytes of a stream the fields of its first tag are: sizes and times highest byte first, the time's
      extension and the type as they stand, the data after the eleven bytes of the header. */
  lemma FirstTagFields(s: seq<u8>)
    requires HasTag(s)
    ensures var t, n := FirstTag(s), BigEndian32([0] + s[1..4]);
            && t.tagType == s[0] && t.dataSize == n && t.timestamp == BigEndian32([0] + s[4..7])
            && t.timestampExt == s[7] && t.data == s[11..11 + n] && t.previousTagSize == 11 + n && t.streamId == 0
            && TotalTagSize(s) == 11 + n + 4
  {
  }

  lemma BytesOfThree(b0: u8, b1: u8, b2: u8)
    ensures var x := BigEndian24(b0, b1, b2); ByteOf(x, 2) == b0 && ByteOf(x, 1) == b1 && ByteOf(x, 0) == b2
  {
    var x := BigEndian24(b0, b1, b2);
    ModUnique(x, 0x100, b0 * 0x100 + b1, b2);
    ModUnique(x, 0x1_0000, b0, b1 * 0x100 + b2);
    ModUnique(b0 * 0x100 + b1, 0x100, b0, b1);
    ModUnique(b0, 0x100, 0, b0);
  }

  function AllBytes(tags: seq<FlvTag>): seq<u8> {
    if tags == [] then [] else TagBytes(tags[0]) + AllBytes(tags[1..])
  }

  lemma {:induction false} TagsRoundTrip(tags: seq<FlvTag>)
    requires forall t | t in tags :: WellFormedTag(t)
    ensures Tags(AllBytes(tags)) == tags
  {
    if tags != [] {
      assert tags[0] in tags;
      var rest := AllBytes(tags[1..]);
      TagsRoundTrip(tags[1..]);
      TagFirst(tags[0], rest);
    }
  }

  lemma TagFirst(t: FlvTag, rest: seq<u8>)
    requires WellFormedTag(t)
    ensures Tags(TagBytes(t) + rest) == [t] + Tags(rest)
  {
    TagRoundTrip(t, rest);
  }

  function HeaderBytes(flags: u8): seq<u8> {
    [0x46, 0x4C, 0x56, 1, flags, 0, 0, 0, 9] + [0, 0, 0, 0]
  }

  /** A recorded file, cut in any way and read at any moments outside the gap, gives back its tags. */
  lemma RecordedFileIsReadBack(flags: u8, tags: seq<FlvTag>, ops: seq<Op>)
    requires flags == 1 || flags == 4 || flags == 5
    requires forall t | t in tags :: WellFormedTag(t)
    requires Fed(ops) == HeaderBytes(flags) + AllBytes(tags)
    requires Smooth(Fresh, ops) && !HeaderRunsPast(Run(Fresh, ops).0)
    requires Take(Run(Fresh, ops).0).1.None?
    ensures Run(Fresh, ops).1 == tags
  {
    DrainedRunGivesAllTags(ops);
    TagsRoundTrip(tags);
    AfterHeader(flags, AllBytes(tags));
  }

  /** The file headers that are recognised: those with audio, video or both and nothing else set. */
  lemma HeaderIff(s: seq<u8>)
    requires |s| >= FLV_HEADER_LENGTH
    ensures IsFlvHeader(s) <==> s[..9] in {HeaderBytes(1)[..9], HeaderBytes(4)[..9], HeaderBytes(5)[..9]}
  {
    var head := s[..9];
    assert head == [s[0], s[1], s[2], s[3], s[4], s[5], s[6], s[7], s[8]];
    HeaderFront(1);
    HeaderFront(4);
    HeaderFront(5);
  }

  lemma HeaderFront(flags: u8)
    ensures HeaderBytes(flags)[..9] == [0x46, 0x4C, 0x56, 1, flags, 0, 0, 0, 9]
  {
  }

  lemma AfterHeader(flags: u8, rest: seq<u8>)
    requires flags == 1 || flags == 4 || flags == 5
    ensures TagsAhead(Reader(HeaderBytes(flags) + rest, false)) == Tags(rest)
  {
    var head := HeaderBytes(flags);
    var s := head + rest;
    assert forall k | 0 <= k < 9 :: s[k] == head[k];
    assert IsFlvHeader(s);
    assert s[13..] == rest;
  }
}
