/** One stream key of the RTMP server: its cached headers and frames, its watchers and what each of them
    has been sent (`crates/ez-ffmpeg/src/rtmp/rtmp_scheduler.rs`). */
module RtmpChannels {
  import opened Bits
  import opened GopCache
  import opened Options

  /** A packet handed to a watcher's connection; media packets say whether they may be dropped. */
  datatype Packet = Metadata(info: nat) | Media(frame: Frame, mayDrop: bool)

  datatype ClientAction = Waiting | Watching(streamId: nat)

  datatype Client = Client(action: ClientAction, received: bool)

  predicate IsHeader(frame: Frame) {
    match frame
    case Video(_, data) => IsVideoSequenceHeader(data)
    case Audio(_, data) => IsAudioSequenceHeader(data)
  }

  predicate ShouldSend(received: bool, frame: Frame) {
    match frame
    case Video(_, data) => received || IsVideoSequenceHeader(data) || IsVideoKeyframe(data)
    case Audio(_, data) => received || IsAudioSequenceHeader(data)
  }

  // ---- what a watcher should be sent ----

  /** The last video (or audio) sequence header of a history. */
  function LastHeader(history: seq<Frame>, video: bool): Option<Frame> {
    if history == [] then None
    else if IsHeader(history[|history| - 1]) && history[|history| - 1].Video? == video then Some(history[|history| - 1])
    else LastHeader(history[..|history| - 1], video)
  }

  function AsSeq(frame: Option<Frame>): seq<Frame> {
    if frame.None? then [] else [frame.value]
  }

  function Headers(history: seq<Frame>): seq<Frame> {
    AsSeq(LastHeader(history, true)) + AsSeq(LastHeader(history, false))
  }

  /** A sequence header with no later one of its kind. */
  ghost predicate IsLatestHeader(history: seq<Frame>, k: nat) {
    && k < |history| && IsHeader(history[k])
    && forall m | k < m < |history| && IsHeader(history[m]) :: history[m].Video? != history[k].Video?
  }

  lemma {:induction false} LastHeaderIsLatest(history: seq<Frame>, video: bool)
    ensures forall k: nat | IsLatestHeader(history, k) && history[k].Video? == video ::
              LastHeader(history, video) == Some(history[k])
    ensures LastHeader(history, video).Some? ==>
              exists k: nat :: IsLatestHeader(history, k) && history[k].Video? == video
                && LastHeader(history, video) == Some(history[k])
  {
    if history != [] {
      var front, last := history[..|history| - 1], history[|history| - 1];
      LastHeaderIsLatest(front, video);
      if IsHeader(last) && last.Video? == video {
        assert IsLatestHeader(history, |front|);
      } else {
        forall k: nat | k < |front| && history[k].Video? == video
          ensures IsLatestHeader(history, k) <==> IsLatestHeader(front, k)
        {
        }
      }
    }
  }

  ghost predicate IsLatestPacket(history: seq<Frame>, packet: Packet) {
    exists k: nat :: IsLatestHeader(history, k) && packet == Media(history[k], false)
  }

  /** Of these packets the ones from `start` to `end` are exactly the latest headers, video before audio. */
  ghost predicate HeadersStand(history: seq<Frame>, packets: seq<Packet>, start: nat, end: nat) {
    && start <= end <= |packets|
    && (forall k: nat | IsLatestHeader(history, k) :: Media(history[k], false) in packets[start..end])
    && (forall i | start <= i < end :: packets[i].Media? && IsLatestPacket(history, packets[i]))
    && (forall i, j | start <= i < j < end :: packets[i].frame.Video? && packets[j].frame.Audio?)
  }

  lemma HeadersAreLatest(history: seq<Frame>, before: seq<Packet>, after: seq<Packet>)
    ensures var headers := Packets(Headers(history), false);
            HeadersStand(history, before + headers + after, |before|, |before| + |headers|)
  {
    LastHeaderIsLatest(history, true);
    LastHeaderIsLatest(history, false);
    var headers := Packets(Headers(history), false);
    var packets := before + headers + after;
    assert packets[|before|..|before| + |headers|] == headers;
    forall k: nat | IsLatestHeader(history, k)
      ensures Media(history[k], false) in headers
    {
      var i := if history[k].Video? then 0 else |headers| - 1;
      assert headers[i] == Media(history[k], false);
    }
    forall i | |before| <= i < |before| + |headers|
      ensures packets[i].Media? && IsLatestPacket(history, packets[i])
    {
      HeaderIsLatest(history, i - |before|);
      assert packets[i] == headers[i - |before|];
    }
  }

  lemma HeaderIsLatest(history: seq<Frame>, j: nat)
    requires j < |Headers(history)|
    ensures IsLatestPacket(history, Media(Headers(history)[j], false))
  {
    var frame := Headers(history)[j];
    LastHeaderIsLatest(history, true);
    LastHeaderIsLatest(history, false);
    assert LastHeader(history, frame.Video?) == Some(frame);
  }

  /** What is sent to a new watcher: between the metadata and the cached frames exactly the latest headers. */
  lemma HeadersAhead(history: seq<Frame>, n: nat, before: seq<Packet>)
    ensures var packets := before + Packets(Headers(history) + Cache(history, n), false);
            HeadersStand(history, packets, |before|, |packets| - |Cache(history, n)|)
  {
    var headers, frames := Packets(Headers(history), false), Packets(Cache(history, n), false);
    HeadersAreLatest(history, before, frames);
    PacketsConcat(Headers(history), Cache(history, n), false);
    assert before + Packets(Headers(history) + Cache(history, n), false) == before + headers + frames;
  }

  function Cache(history: seq<Frame>, n: nat): seq<Frame> {
    if n == 0 then [] else FromKey(history, n)
  }

  /** Has a watcher that was (or was not) open from the start been opened by these frames? */
  predicate Opens(frames: seq<Frame>, open: bool) {
    open || exists k :: 0 <= k < |frames| && IsKey(frames[k])
  }

  /** The frames a watcher gets out of those that arrive while it watches. */
  function Passed(frames: seq<Frame>, open: bool): seq<Frame> {
    if frames == [] then []
    else
      var front, last := frames[..|frames| - 1], frames[|frames| - 1];
      Passed(front, open) + (if ShouldSend(Opens(front, open), last) then [last] else [])
  }

  function HeadersAmong(frames: seq<Frame>): seq<Frame> {
    if frames == [] then []
    else
      var front, last := frames[..|frames| - 1], frames[|frames| - 1];
      HeadersAmong(front) + (if IsHeader(last) then [last] else [])
  }

  function Packets(frames: seq<Frame>, mayDrop: bool): seq<Packet> {
    seq(|frames|, i requires 0 <= i < |frames| => Media(frames[i], mayDrop))
  }

  function MediaOf(packets: seq<Packet>): seq<Packet> {
    if packets == [] then []
    else
      var front, last := packets[..|packets| - 1], packets[|packets| - 1];
      MediaOf(front) + (if last.Media? then [last] else [])
  }

  function LastMetadata(packets: seq<Packet>): Option<nat> {
    if packets == [] then None
    else if packets[|packets| - 1].Metadata? then Some(packets[|packets| - 1].info)
    else LastMetadata(packets[..|packets| - 1])
  }

  /** All media a watcher that joined after `joined` frames must have been sent, in order. */
  ghost function Expected(history: seq<Frame>, joined: nat, n: nat): seq<Packet>
    requires joined <= |history|
  {
    var before := history[..joined];
    Packets(Headers(before) + Cache(before, n), false)
    + Packets(Passed(history[joined..], Cache(before, n) != []), true)
  }

  /** This watcher has been sent exactly what it should have been. */
  ghost predicate Served(client: Client, sent: seq<Packet>, history: seq<Frame>, joined: nat, n: nat) {
    && client.action.Watching?
    && joined <= |history|
    && MediaOf(sent) == Expected(history, joined, n)
    && client.received == Opens(history[joined..], Cache(history[..joined], n) != [])
  }

  // ---- one more packet, one more frame ----

  lemma MediaOfAppend(packets: seq<Packet>, packet: Packet)
    ensures MediaOf(packets + [packet]) == MediaOf(packets) + (if packet.Media? then [packet] else [])
    ensures LastMetadata(packets + [packet]) == if packet.Metadata? then Some(packet.info) else LastMetadata(packets)
  {
    assert (packets + [packet])[..|packets|] == packets;
  }

  lemma {:induction false} MediaOfMedia(sent: seq<Packet>, media: seq<Packet>)
    requires forall i | 0 <= i < |media| :: media[i].Media?
    ensures MediaOf(sent + media) == MediaOf(sent) + media
    ensures LastMetadata(sent + media) == LastMetadata(sent)
  {
    if media == [] {
      assert sent + media == sent;
    } else {
      var front, last := media[..|media| - 1], media[|media| - 1];
      var before := sent + front;
      MediaOfMedia(sent, front);
      MediaOfAppend(before, last);
      assert sent + media == before + [last];
    }
  }

  lemma PacketsAppend(frames: seq<Frame>, frame: Frame, mayDrop: bool)
    ensures Packets(frames + [frame], mayDrop) == Packets(frames, mayDrop) + [Media(frame, mayDrop)]
  {
  }

  lemma OpensAppend(frames: seq<Frame>, frame: Frame, open: bool)
    ensures Opens(frames + [frame], open) == (Opens(frames, open) || IsKey(frame))
  {
    var all := frames + [frame];
    assert all[|frames|] == frame;
    forall k | 0 <= k < |frames| ensures all[k] == frames[k] {}
    if Opens(frames, open) && !open {
      var k :| 0 <= k < |frames| && IsKey(frames[k]);
      assert IsKey(all[k]);
    }
  }

  lemma PassedAppend(frames: seq<Frame>, frame: Frame, open: bool)
    ensures Passed(frames + [frame], open)
            == Passed(frames, open) + (if ShouldSend(Opens(frames, open), frame) then [frame] else [])
  {
    assert (frames + [frame])[..|frames|] == frames;
  }

  lemma ExpectedStep(history: seq<Frame>, frame: Frame, joined: nat, n: nat)
    requires joined <= |history|
    ensures var open := Opens(history[joined..], Cache(history[..joined], n) != []);
            && Expected(history + [frame], joined, n)
               == Expected(history, joined, n) + (if ShouldSend(open, frame) then [Media(frame, true)] else [])
            && Opens((history + [frame])[joined..], Cache((history + [frame])[..joined], n) != [])
                == (open || IsKey(frame))
  {
    var before, after := history[..joined], history[joined..];
    var open := Cache(before, n) != [];
    assert (history + [frame])[..joined] == before;
    assert (history + [frame])[joined..] == after + [frame];
    PassedAppend(after, frame, open);
    OpensAppend(after, frame, open);
    PacketsAppend(Passed(after, open), frame, true);
  }

  function Opened(client: Client, frame: Frame): Client {
    client.(received := client.received || IsKey(frame))
  }

  function Forwarded(client: Client, sent: seq<Packet>, frame: Frame): seq<Packet> {
    if ShouldSend(client.received, frame) then sent + [Media(frame, true)] else sent
  }

  /** Sending by the rule of the code keeps a watcher served when a frame arrives. */
  lemma ServedStep(client: Client, sent: seq<Packet>, history: seq<Frame>, joined: nat, n: nat, frame: Frame)
    requires Served(client, sent, history, joined, n)
    ensures Served(Opened(client, frame), Forwarded(client, sent, frame), history + [frame], joined, n)
    ensures LastMetadata(Forwarded(client, sent, frame)) == LastMetadata(sent)
  {
    ExpectedStep(history, frame, joined, n);
    MediaOfAppend(sent, Media(frame, true));
    assert IsKey(frame) ==> ShouldSend(client.received, frame);
  }

  /** Every watcher is served, and every other client is waiting. */
  ghost predicate AllServed(watching: set<nat>, clients: map<nat, Client>, sent: map<nat, seq<Packet>>,
                            joined: map<nat, nat>, history: seq<Frame>, n: nat) {
    && watching <= clients.Keys && clients.Keys <= sent.Keys && watching <= joined.Keys
    && (forall id :: id in watching ==> Served(clients[id], sent[id], history, joined[id], n))
    && (forall id :: id in clients && id !in watching ==> clients[id] == Client(Waiting, false))
  }

  /** The last metadata that each watcher was sent is the current one. */
  ghost predicate AllShown(watching: set<nat>, sent: map<nat, seq<Packet>>, metadata: Option<nat>) {
    && watching <= sent.Keys
    && forall id :: id in watching && metadata.Some? ==> LastMetadata(sent[id]) == metadata
  }

  /** What a frame does to clients and their packets: it is forwarded to the watchers. */
  ghost predicate FrameForwarded(watching: set<nat>, was: map<nat, Client>, wasSent: map<nat, seq<Packet>>,
                                 clients: map<nat, Client>, sent: map<nat, seq<Packet>>, frame: Frame) {
    && clients.Keys == was.Keys && sent.Keys == wasSent.Keys
    && watching <= was.Keys && was.Keys <= wasSent.Keys
    && (forall id :: id in watching ==>
          clients[id] == Opened(was[id], frame) && sent[id] == Forwarded(was[id], wasSent[id], frame))
    && (forall id :: id in was && id !in watching ==> clients[id] == was[id])
  }

  lemma AllServedStep(watching: set<nat>, was: map<nat, Client>, wasSent: map<nat, seq<Packet>>,
                      clients: map<nat, Client>, sent: map<nat, seq<Packet>>,
                      joined: map<nat, nat>, metadata: Option<nat>, history: seq<Frame>, n: nat, frame: Frame)
    requires AllServed(watching, was, wasSent, joined, history, n) && AllShown(watching, wasSent, metadata)
    requires FrameForwarded(watching, was, wasSent, clients, sent, frame)
    ensures AllServed(watching, clients, sent, joined, history + [frame], n) && AllShown(watching, sent, metadata)
  {
    forall id | id in watching
      ensures Served(clients[id], sent[id], history + [frame], joined[id], n)
      ensures LastMetadata(sent[id]) == LastMetadata(wasSent[id])
    {
      ServedStep(was[id], wasSent[id], history, joined[id], n, frame);
    }
  }

  lemma AllServedConnected(watching: set<nat>, clients: map<nat, Client>, sent: map<nat, seq<Packet>>,
                           joined: map<nat, nat>, metadata: Option<nat>, history: seq<Frame>, n: nat, id: nat)
    requires AllServed(watching, clients, sent, joined, history, n) && AllShown(watching, sent, metadata)
    requires id !in clients
    ensures AllServed(watching, clients[id := Client(Waiting, false)], sent[id := []], joined, history, n)
    ensures AllShown(watching, sent[id := []], metadata)
  {
  }

  lemma AllServedWithout(watching: set<nat>, clients: map<nat, Client>, sent: map<nat, seq<Packet>>,
                         joined: map<nat, nat>, metadata: Option<nat>, history: seq<Frame>, n: nat, id: nat)
    requires AllServed(watching, clients, sent, joined, history, n) && AllShown(watching, sent, metadata)
    ensures AllServed(watching - {id}, clients - {id}, sent, joined, history, n)
    ensures AllShown(watching - {id}, sent, metadata)
    ensures id !in clients ==> watching - {id} == watching && clients - {id} == clients
    ensures id in clients && !clients[id].action.Watching? ==> watching - {id} == watching
  {
    assert id !in clients ==> clients - {id} == clients;
  }

  lemma ServedAtJoin(client: Client, history: seq<Frame>, n: nat, start: seq<Packet>, sent: seq<Packet>)
    requires client.action.Watching? && client.received == (Cache(history, n) != [])
    requires MediaOf(start) == []
    requires sent == start + Packets(Headers(history) + Cache(history, n), false)
    ensures Served(client, sent, history, |history|, n)
    ensures LastMetadata(sent) == LastMetadata(start)
  {
    assert history[..|history|] == history && history[|history|..] == [];
    MediaOfMedia(start, Packets(Headers(history) + Cache(history, n), false));
    assert Packets(Passed([], Cache(history, n) != []), true) == [];
  }

  lemma LastHeaderAppend(history: seq<Frame>, frame: Frame, video: bool)
    ensures LastHeader(history + [frame], video)
            == if IsHeader(frame) && frame.Video? == video then Some(frame) else LastHeader(history, video)
  {
    assert (history + [frame])[..|history|] == history;
  }

  // ---- what being served means ----

  lemma {:induction false} OpenPassesAll(frames: seq<Frame>)
    ensures Passed(frames, true) == frames
  {
    if frames != [] {
      var front, last := frames[..|frames| - 1], frames[|frames| - 1];
      OpenPassesAll(front);
      assert frames == front + [last];
    }
  }

  /** A watcher that starts closed gets the sequence headers among the frames before the first key frame,
      nothing else of them, and everything from that key frame on. */
  lemma {:induction false} ClosedPassesFromFirstKey(frames: seq<Frame>, first: nat)
    requires first <= |frames|
    requires forall k :: 0 <= k < first ==> !IsKey(frames[k])
    requires first < |frames| ==> IsKey(frames[first])
    ensures Passed(frames, false) == HeadersAmong(frames[..first]) + frames[first..]
  {
    if frames == [] {
    } else {
      var front, last := frames[..|frames| - 1], frames[|frames| - 1];
      assert frames == front + [last];
      if first == |frames| {
        ClosedPassesFromFirstKey(front, |front|);
        assert front[..|front|] == front && frames[..first] == frames;
      } else {
        ClosedPassesFromFirstKey(front, first);
        assert front[..first] == frames[..first];
        if first < |front| {
          assert IsKey(front[first]) && Opens(front, false);
        }
        assert frames[first..] == front[first..] + [last];
      }
    }
  }

  /** The cache is empty exactly when nothing has arrived yet or caching is off. */
  lemma CacheIsEmptyIff(history: seq<Frame>, n: nat)
    ensures Cache(history, n) == [] <==> n == 0 || history == []
  {
    if n > 0 && history != [] {
      var last := history[|history| - 1];
      assert last in FromKey(history, n);
    }
  }

  /** A watcher that joins a channel with cached frames sees, after the headers, the history from one
      point on without a gap or a repeat: from the n-th most recent key frame, or from the beginning. */
  lemma GaplessWatching(history: seq<Frame>, joined: nat, n: nat) returns (start: nat)
    requires joined <= |history| && n >= 1 && joined > 0
    ensures start <= joined
    ensures KeyCount(history[..joined]) < n ==> start == 0
    ensures KeyCount(history[..joined]) >= n ==>
              start < joined && IsKey(history[start]) && KeyCount(history[start..joined]) == n
    ensures Expected(history, joined, n)
            == Packets(Headers(history[..joined]), false)
               + Packets(history[start..joined], false) + Packets(history[joined..], true)
  {
    var before := history[..joined];
    start := FromKeyIsSuffix(before, n);
    CacheIsEmptyIff(before, n);
    OpenPassesAll(history[joined..]);
    assert before[start..] == history[start..joined];
    PacketsConcat(Headers(before), before[start..], false);
  }

  lemma PacketsConcat(a: seq<Frame>, b: seq<Frame>, mayDrop: bool)
    ensures Packets(a + b, mayDrop) == Packets(a, mayDrop) + Packets(b, mayDrop)
  {
  }

  /** A watcher that joins before anything is cached gets no frame but sequence headers until the first
      key frame, then everything. */
  lemma ClosedWatching(history: seq<Frame>, joined: nat, n: nat, first: nat)
    requires joined <= first <= |history| && (n == 0 || joined == 0)
    requires forall k :: joined <= k < first ==> !IsKey(history[k])
    requires first < |history| ==> IsKey(history[first])
    ensures Expected(history, joined, n)
            == Packets(Headers(history[..joined]), false)
               + Packets(HeadersAmong(history[joined..first]) + history[first..], true)
  {
    var before, after := history[..joined], history[joined..];
    CacheIsEmptyIff(before, n);
    assert Headers(before) + Cache(before, n) == Headers(before);
    forall k | 0 <= k < first - joined ensures !IsKey(after[k]) {}
    ClosedPassesFromFirstKey(after, first - joined);
    assert after[..first - joined] == history[joined..first];
    assert after[first - joined..] == history[first..];
  }

  // ---- the channel ----

  class MediaChannel {
    const gops: Gops
    var videoHeader: Option<seq<u8>>
    var videoTimestamp: u32
    var audioHeader: Option<seq<u8>>
    var audioTimestamp: u32
    var metadata: Option<nat>
    var watching: set<nat>
    var clients: map<nat, Client>
    ghost var Sent: map<nat, seq<Packet>>
    ghost var Joined: map<nat, nat>

    ghost function History(): seq<Frame>
      reads gops
    {
      gops.History
    }

    ghost predicate HeadersKept()
      reads this`videoHeader, this`videoTimestamp, this`audioHeader, this`audioTimestamp, gops`History
    {
      && LastHeader(gops.History, true) == HeaderFrame(videoHeader, videoTimestamp, true)
      && LastHeader(gops.History, false) == HeaderFrame(audioHeader, audioTimestamp, false)
    }

    static function HeaderFrame(data: Option<seq<u8>>, timestamp: u32, video: bool): Option<Frame> {
      match data
      case None => None
      case Some(bytes) => Some(if video then Video(timestamp, bytes) else Audio(timestamp, bytes))
    }

    ghost predicate WatchersServed()
      reads this`watching, this`clients, this`Sent, this`Joined, gops`History
    {
      AllServed(watching, clients, Sent, Joined, gops.History, gops.size)
    }

    ghost predicate MetadataShown()
      reads this`watching, this`Sent, this`metadata
    {
      AllShown(watching, Sent, metadata)
    }

    ghost predicate Valid()
      reads this, gops
    {
      gops.Valid() && HeadersKept() && WatchersServed() && MetadataShown()
    }

    constructor (gopLimit: nat)
      ensures Valid() && fresh(gops) && gops.size == gopLimit
      ensures History() == [] && clients == map[] && watching == {}
    {
      gops := new Gops(gopLimit);
      videoHeader, videoTimestamp, audioHeader, audioTimestamp := None, 0, None, 0;
      metadata, watching, clients := None, {}, map[];
      Sent, Joined := map[], map[];
    }

    method Connect(id: nat)
      requires Valid() && id !in clients
      modifies this
      ensures Valid() && History() == old(History()) && metadata == old(metadata)
      ensures clients == old(clients)[id := Client(Waiting, false)] && watching == old(watching)
    {
      AllServedConnected(watching, clients, Sent, Joined, metadata, gops.History, gops.size, id);
      clients := clients[id := Client(Waiting, false)];
      Sent := Sent[id := []];
    }

    /** Everything the channel holds is sent to a new watcher before it is added to the live frames: the
        metadata, the latest sequence headers (`HeadersAhead`), the cached frames. */
    method HandlePlay(id: nat, streamId: nat) returns (results: seq<Packet>)
      requires Valid() && id in clients && clients[id].action.Waiting?
      modifies this
      ensures Valid() && History() == old(History()) && metadata == old(metadata)
      ensures watching == old(watching) + {id} && Joined == old(Joined)[id := |History()|]
      ensures Sent == old(Sent)[id := results] && clients.Keys == old(clients.Keys)
      ensures results == MetadataPacket(metadata)
                         + Packets(Headers(History()) + Cache(History(), gops.size), false)
    {
      var open;
      results, open := Replay();
      Join(id, Client(Watching(streamId), open), results);
    }

    method Join(id: nat, client: Client, results: seq<Packet>)
      requires Valid() && id in clients && client.action.Watching?
      requires results == MetadataPacket(metadata)
                          + Packets(Headers(gops.History) + Cache(gops.History, gops.size), false)
      requires client.received == (Cache(gops.History, gops.size) != [])
      modifies this`watching, this`clients, this`Sent, this`Joined
      ensures Valid()
      ensures watching == old(watching) + {id} && clients == old(clients)[id := client]
      ensures Sent == old(Sent)[id := results] && Joined == old(Joined)[id := |gops.History|]
    {
      MetadataFirst(metadata);
      ServedAtJoin(client, gops.History, gops.size, MetadataPacket(metadata), results);
      AddWatcher(id, client, results);
    }

    static lemma MetadataFirst(metadata: Option<nat>)
      ensures MediaOf(MetadataPacket(metadata)) == []
      ensures metadata.Some? ==> LastMetadata(MetadataPacket(metadata)) == metadata
    {
      assert MediaOf(MetadataPacket(metadata)) == MediaOf([]);
    }

    method AddWatcher(id: nat, client: Client, results: seq<Packet>)
      requires Valid() && id in clients
      requires Served(client, results, gops.History, |gops.History|, gops.size)
      requires metadata.Some? ==> LastMetadata(results) == metadata
      modifies this`watching, this`clients, this`Sent, this`Joined
      ensures Valid()
      ensures watching == old(watching) + {id} && clients == old(clients)[id := client]
      ensures Sent == old(Sent)[id := results] && Joined == old(Joined)[id := |gops.History|]
    {
      watching := watching + {id};
      clients := clients[id := client];
      Sent := Sent[id := results];
      Joined := Joined[id := |gops.History|];
    }

    static function MetadataPacket(metadata: Option<nat>): (packets: seq<Packet>)
      ensures metadata.None? ==> packets == []
      ensures metadata.Some? ==> packets == [Metadata(metadata.value)]
    {
      if metadata.None? then [] else [Metadata(metadata.value)]
    }

    method Replay() returns (results: seq<Packet>, open: bool)
      requires gops.Valid() && HeadersKept()
      ensures results == MetadataPacket(metadata)
                         + Packets(Headers(gops.History) + Cache(gops.History, gops.size), false)
      ensures open == (Cache(gops.History, gops.size) != [])
    {
      var headers := ReplayHeaders();
      var frames := gops.GetFrames();
      PacketsConcat(Headers(gops.History), frames, false);
      var replay := SendCached(frames);
      results := MetadataPacket(metadata) + (headers + replay);
      open := |frames| > 0;
    }

    method ReplayHeaders() returns (results: seq<Packet>)
      requires HeadersKept()
      ensures results == Packets(Headers(gops.History), false)
    {
      results := [];
      if videoHeader.Some? {
        results := results + [Media(Video(videoTimestamp, videoHeader.value), false)];
      }
      if audioHeader.Some? {
        results := results + [Media(Audio(audioTimestamp, audioHeader.value), false)];
      }
    }

    method SendCached(frames: seq<Frame>) returns (results: seq<Packet>)
      ensures results == Packets(frames, false)
    {
      results := [];
      for i := 0 to |frames|
        invariant results == Packets(frames[..i], false)
      {
        assert frames[..i + 1] == frames[..i] + [frames[i]];
        PacketsAppend(frames[..i], frames[i], false);
        results := results + [Media(frames[i], false)];
      }
      assert frames[..|frames|] == frames;
    }

    /** A frame is cached, a sequence header also kept, and the frame sent to every watcher that is open
        or whom it opens. */
    method HandleData(frame: Frame)
      requires Valid()
      modifies this, gops
      ensures Valid() && History() == old(History()) + [frame]
      ensures watching == old(watching) && Joined == old(Joined) && metadata == old(metadata)
      ensures FrameForwarded(watching, old(clients), old(Sent), clients, Sent, frame)
    {
      ghost var history := gops.History;
      SaveData(frame);
      Distribute(frame, history);
    }

    method Distribute(frame: Frame, ghost history: seq<Frame>)
      requires AllServed(watching, clients, Sent, Joined, history, gops.size) && MetadataShown()
      requires gops.History == history + [frame]
      modifies this`clients, this`Sent
      ensures WatchersServed() && MetadataShown()
      ensures FrameForwarded(watching, old(clients), old(Sent), clients, Sent, frame)
    {
      ghost var was, wasSent := clients, Sent;
      SendToWatchers(frame);
      AllServedStep(watching, was, wasSent, clients, Sent, Joined, metadata, history, gops.size, frame);
    }

    method SaveData(frame: Frame)
      requires gops.Valid() && HeadersKept()
      modifies this`videoHeader, this`videoTimestamp, this`audioHeader, this`audioTimestamp, gops
      ensures gops.Valid() && HeadersKept() && gops.History == old(gops.History) + [frame]
    {
      LastHeaderAppend(gops.History, frame, true);
      LastHeaderAppend(gops.History, frame, false);
      match frame {
        case Video(timestamp, data) =>
          if IsVideoSequenceHeader(data) {
            videoHeader, videoTimestamp := Some(data), timestamp;
          }
          gops.SaveFrameData(frame, IsVideoKeyframe(data));
        case Audio(timestamp, data) =>
          if IsAudioSequenceHeader(data) {
            audioHeader, audioTimestamp := Some(data), timestamp;
          }
          gops.SaveFrameData(frame, false);
      }
    }

    method SendToWatchers(frame: Frame)
      requires watching <= clients.Keys && clients.Keys <= Sent.Keys
      modifies this`clients, this`Sent
      ensures FrameForwarded(watching, old(clients), old(Sent), clients, Sent, frame)
    {
      var todo := watching;
      while todo != {}
        invariant todo <= watching
        invariant clients.Keys == old(clients.Keys) && Sent.Keys == old(Sent.Keys)
        invariant forall id :: id in watching - todo ==>
                    && clients[id] == Opened(old(clients)[id], frame)
                    && Sent[id] == Forwarded(old(clients)[id], old(Sent)[id], frame)
        invariant forall id :: id in todo ==> clients[id] == old(clients)[id] && Sent[id] == old(Sent)[id]
        invariant forall id :: id in clients && id !in watching ==> clients[id] == old(clients)[id]
        decreases todo
      {
        var id :| id in todo;
        todo := todo - {id};
        var client := clients[id];
        if ShouldSend(client.received, frame) {
          if IsKey(frame) {
            clients := clients[id := client.(received := true)];
          }
          Sent := Sent[id := Sent[id] + [Media(frame, true)]];
        }
      }
    }

    method HandleMetadata(info: nat)
      requires Valid()
      modifies this
      ensures Valid() && History() == old(History()) && metadata == Some(info)
      ensures watching == old(watching) && clients == old(clients) && Joined == old(Joined)
      ensures forall id :: id in watching ==> Sent[id] == old(Sent)[id] + [Metadata(info)]
    {
      metadata := Some(info);
      ghost var wasSent := Sent;
      SendMetadata(info);
      forall id | id in watching
        ensures MediaOf(Sent[id]) == MediaOf(wasSent[id]) && LastMetadata(Sent[id]) == Some(info)
      {
        MediaOfAppend(wasSent[id], Metadata(info));
      }
    }

    method SendMetadata(info: nat)
      requires watching <= Sent.Keys
      modifies this`Sent
      ensures Sent.Keys == old(Sent.Keys)
      ensures forall id :: id in watching ==> Sent[id] == old(Sent)[id] + [Metadata(info)]
    {
      ghost var wasSent := Sent;
      var todo := watching;
      while todo != {}
        invariant todo <= watching && Sent.Keys == wasSent.Keys
        invariant forall id :: id in watching - todo ==> Sent[id] == wasSent[id] + [Metadata(info)]
        invariant forall id :: id in todo ==> Sent[id] == wasSent[id]
        decreases todo
      {
        var id :| id in todo;
        todo := todo - {id};
        Sent := Sent[id := Sent[id] + [Metadata(info)]];
      }
    }

    /** The frames of the channel outlive their publisher; only its metadata goes. */
    method PublishingEnded()
      requires Valid()
      modifies this
      ensures Valid() && History() == old(History()) && metadata == None
      ensures watching == old(watching) && clients == old(clients) && Joined == old(Joined) && Sent == old(Sent)
    {
      metadata := None;
    }

    method ConnectionClosed(id: nat)
      requires Valid()
      modifies this
      ensures Valid() && History() == old(History()) && metadata == old(metadata)
      ensures watching == old(watching) - {id} && clients == old(clients) - {id} && Joined == old(Joined)
    {
      AllServedWithout(watching, clients, Sent, Joined, metadata, gops.History, gops.size, id);
      if id in clients {
        var client := clients[id];
        clients := clients - {id};
        if client.action.Watching? {
          watching := watching - {id};
        }
      }
    }
  }
}
