/** The cache of the last groups of pictures (`crates/ez-ffmpeg/src/rtmp/gop.rs`). */
module GopCache {
  import opened Bits

  datatype Frame = Video(timestamp: u32, data: seq<u8>) | Audio(timestamp: u32, data: seq<u8>)

  predicate IsVideoSequenceHeader(data: seq<u8>) {
    |data| >= 2 && data[0] == 0x17 && data[1] == 0x00
  }

  predicate IsAudioSequenceHeader(data: seq<u8>) {
    |data| >= 2 && data[0] == 0xaf && data[1] == 0x00
  }

  predicate IsVideoKeyframe(data: seq<u8>) {
    |data| >= 2 && data[0] == 0x17 && data[1] != 0x00
  }

  /** The tag fields behind these bytes: frame type 1 and codec 7 (H.264), or sound format 10 (AAC) with its flags
      set; then a packet type, which is 0 for a sequence header. */
  lemma TagFields(data: seq<u8>)
    ensures IsVideoKeyframe(data)
            <==> |data| >= 2 && data[0] / 16 == 1 && data[0] % 16 == 7 && data[1] != 0
    ensures IsVideoSequenceHeader(data)
            <==> |data| >= 2 && data[0] / 16 == 1 && data[0] % 16 == 7 && data[1] == 0
    ensures IsAudioSequenceHeader(data)
            <==> |data| >= 2 && data[0] / 16 == 10 && data[0] % 16 == 15 && data[1] == 0
  {
  }

  predicate IsKey(frame: Frame) {
    frame.Video? && IsVideoKeyframe(frame.data)
  }

  // ---- what should be cached ----

  function KeyCount(history: seq<Frame>): nat {
    if history == [] then 0
    else KeyCount(history[..|history| - 1]) + (if IsKey(history[|history| - 1]) then 1 else 0)
  }

  /** The suffix of the history from the n-th most recent key frame on, or all of it. */
  function FromKey(history: seq<Frame>, n: nat): seq<Frame>
    requires n >= 1
  {
    if history == [] then []
    else
      var front, last := history[..|history| - 1], history[|history| - 1];
      if IsKey(last) && n == 1 then [last]
      else FromKey(front, if IsKey(last) then n - 1 else n) + [last]
  }

  /** `FromKey` is a suffix; it is everything if there are fewer than n key frames, and otherwise starts
      with a key frame and holds exactly n of them. */
  lemma {:induction false} FromKeyIsSuffix(history: seq<Frame>, n: nat) returns (start: nat)
    requires n >= 1
    ensures start <= |history| && FromKey(history, n) == history[start..]
    ensures KeyCount(history) < n ==> start == 0
    ensures KeyCount(history) >= n ==>
              start < |history| && IsKey(history[start]) && KeyCount(history[start..]) == n
  {
    if history == [] {
      start := 0;
    } else {
      var front, last := history[..|history| - 1], history[|history| - 1];
      if IsKey(last) && n == 1 {
        start := |front|;
        assert history[start..] == [last];
        assert KeyCount([last]) == KeyCount([last][..0]) + 1;
      } else {
        start := FromKeyIsSuffix(front, if IsKey(last) then n - 1 else n);
        assert history[start..] == front[start..] + [last];
        assert history[start..][..|history[start..]| - 1] == front[start..];
      }
    }
  }

  // ---- groups ----

  /** All groups of a history: what precedes the first key frame, then one group per key frame. */
  function Groups(history: seq<Frame>): (groups: seq<seq<Frame>>)
    ensures |groups| >= 1
  {
    if history == [] then [[]]
    else
      var groups := Groups(history[..|history| - 1]);
      var last := history[|history| - 1];
      if IsKey(last) then groups + [[last]]
      else groups[|groups| - 1 := groups[|groups| - 1] + [last]]
  }

  function LastGroups(groups: seq<seq<Frame>>, n: nat): seq<seq<Frame>> {
    if |groups| <= n then groups else groups[|groups| - n..]
  }

  function Flatten(groups: seq<seq<Frame>>): seq<Frame> {
    if groups == [] then [] else Flatten(groups[..|groups| - 1]) + groups[|groups| - 1]
  }

  lemma FlattenAppend(groups: seq<seq<Frame>>, group: seq<Frame>)
    ensures Flatten(groups + [group]) == Flatten(groups) + group
  {
    assert (groups + [group])[..|groups|] == groups;
  }

  lemma GroupsStep(history: seq<Frame>, frame: Frame)
    ensures Groups(history + [frame])
            == var groups := Groups(history); if IsKey(frame) then groups + [[frame]] else AddToLast(groups, frame)
  {
    assert (history + [frame])[..|history|] == history;
  }

  /** The last n groups, laid end to end, are the suffix from the n-th most recent key frame. */
  lemma {:induction false} LastGroupsAreSuffix(history: seq<Frame>, n: nat)
    requires n >= 1
    ensures Flatten(LastGroups(Groups(history), n)) == FromKey(history, n)
  {
    if history == [] {
      assert Flatten([[]]) == Flatten([[]][..0]) + [];
    } else {
      var front, last := history[..|history| - 1], history[|history| - 1];
      assert history == front + [last];
      GroupsStep(front, last);
      if IsKey(last) {
        if n > 1 {
          LastGroupsAreSuffix(front, n - 1);
        }
        FlattenAdded(Groups(front), last, n);
      } else {
        LastGroupsAreSuffix(front, n);
        FlattenGrown(Groups(front), last, n);
      }
    }
  }

  lemma FlattenAdded(groups: seq<seq<Frame>>, frame: Frame, n: nat)
    requires n >= 1 && groups != []
    ensures Flatten(LastGroups(groups + [[frame]], n))
            == (if n == 1 then [] else Flatten(LastGroups(groups, n - 1))) + [frame]
  {
    LastGroupAdded(groups, [frame], n);
    FlattenAppend(LastGroups(groups, n - 1), [frame]);
    if n == 1 {
      assert LastGroups(groups, 0) == [];
    }
  }

  lemma FlattenGrown(groups: seq<seq<Frame>>, frame: Frame, n: nat)
    requires n >= 1 && groups != []
    ensures Flatten(LastGroups(groups[|groups| - 1 := groups[|groups| - 1] + [frame]], n))
            == Flatten(LastGroups(groups, n)) + [frame]
  {
    LastGroupGrown(groups, frame, n);
    GrowLast(LastGroups(groups, n), frame);
  }

  lemma LastGroupAdded(groups: seq<seq<Frame>>, group: seq<Frame>, n: nat)
    requires n >= 1
    ensures LastGroups(groups + [group], n) == LastGroups(groups, n - 1) + [group]
  {
  }

  lemma PopAndPush(groups: seq<seq<Frame>>, frame: Frame, n: nat)
    requires n >= 1
    ensures var kept := LastGroups(groups, n);
            LastGroups(groups + [[frame]], n) == (if |kept| == n then kept[1..] else kept) + [[frame]]
  {
  }

  lemma LastGroupGrown(groups: seq<seq<Frame>>, frame: Frame, n: nat)
    requires n >= 1 && groups != []
    ensures var kept := LastGroups(groups, n);
            && kept != []
            && LastGroups(groups[|groups| - 1 := groups[|groups| - 1] + [frame]], n)
               == kept[|kept| - 1 := kept[|kept| - 1] + [frame]]
  {
  }

  lemma GrowLast(kept: seq<seq<Frame>>, frame: Frame)
    requires kept != []
    ensures Flatten(kept[|kept| - 1 := kept[|kept| - 1] + [frame]]) == Flatten(kept) + [frame]
  {
    var front := kept[..|kept| - 1];
    assert kept[|kept| - 1 := kept[|kept| - 1] + [frame]] == front + [kept[|kept| - 1] + [frame]];
    FlattenAppend(front, kept[|kept| - 1] + [frame]);
    assert kept == front + [kept[|kept| - 1]];
  }

  // ---- the cache ----

  function AddToLast(groups: seq<seq<Frame>>, frame: Frame): seq<seq<Frame>>
    requires groups != []
  {
    groups[|groups| - 1 := groups[|groups| - 1] + [frame]]
  }

  /** What a cache of n groups holds; with n == 0 it stays at one empty group. */
  function Cached(history: seq<Frame>, n: nat): (groups: seq<seq<Frame>>)
    ensures groups != []
  {
    KeptGroups(Groups(history), n)
  }

  function KeptGroups(groups: seq<seq<Frame>>, n: nat): (kept: seq<seq<Frame>>)
    requires groups != []
    ensures kept != []
  {
    if n == 0 then [[]] else LastGroups(groups, n)
  }

  /** Popping a full cache, opening a group at a key frame and adding to the last group keeps exactly
      the last n groups. */
  lemma SavedFrame(history: seq<Frame>, frame: Frame, n: nat)
    ensures var kept := Cached(history, n);
            Cached(history + [frame], n)
            == if n == 0 then kept
               else if !IsKey(frame) then AddToLast(kept, frame)
               else AddToLast((if |kept| == n then kept[1..] else kept) + [[]], frame)
  {
    GroupsStep(history, frame);
    KeptGroupsStep(Groups(history), Groups(history + [frame]), frame, n);
  }

  lemma KeptGroupsStep(groups: seq<seq<Frame>>, next: seq<seq<Frame>>, frame: Frame, n: nat)
    requires groups != [] && next == if IsKey(frame) then groups + [[frame]] else AddToLast(groups, frame)
    ensures var kept := KeptGroups(groups, n);
            KeptGroups(next, n)
            == if n == 0 then kept
               else if !IsKey(frame) then AddToLast(kept, frame)
               else AddToLast((if |kept| == n then kept[1..] else kept) + [[]], frame)
  {
    if n > 0 {
      SavedGroup(groups, frame, n);
    }
  }

  lemma SavedGroup(groups: seq<seq<Frame>>, frame: Frame, n: nat)
    requires n >= 1 && groups != []
    ensures var kept := LastGroups(groups, n);
            && kept != []
            && LastGroups(AddToLast(groups, frame), n) == AddToLast(kept, frame)
            && LastGroups(groups + [[frame]], n) == AddToLast((if |kept| == n then kept[1..] else kept) + [[]], frame)
  {
    var kept := LastGroups(groups, n);
    LastGroupGrown(groups, frame, n);
    PopAndPush(groups, frame, n);
    PushOpen(if |kept| == n then kept[1..] else kept, frame);
  }

  lemma PushOpen(rest: seq<seq<Frame>>, frame: Frame)
    ensures AddToLast(rest + [[]], frame) == rest + [[frame]]
  {
    assert [] + [frame] == [frame];
  }

  class Gops {
    var gops: seq<seq<Frame>>
    const size: nat
    ghost var History: seq<Frame>

    ghost predicate Valid()
      reads this
    {
      gops == Cached(History, size)
    }

    constructor (size: nat)
      ensures Valid() && this.size == size && History == []
    {
      this.size := size;
      gops := [[]];
      History := [];
    }

    method SaveFrameData(frame: Frame, isKeyFrame: bool)
      requires Valid() && isKeyFrame == IsKey(frame)
      modifies this
      ensures Valid() && History == old(History) + [frame]
    {
      SavedFrame(History, frame, size);
      History := History + [frame];
      if size == 0 {
        return;
      }
      var kept := gops;
      if isKeyFrame {
        if |kept| == size {
          kept := kept[1..];
        }
        kept := kept + [[]];
      }
      gops := AddToLast(kept, frame);
    }

    /** The cached frames: from the n-th most recent key frame on, nothing when caching is off. */
    method GetFrames() returns (frames: seq<Frame>)
      requires Valid()
      ensures frames == if size == 0 then [] else FromKey(History, size)
    {
      frames := [];
      for i := 0 to |gops|
        invariant frames == Flatten(gops[..i])
      {
        assert gops[..i + 1][..i] == gops[..i];
        frames := frames + gops[i];
      }
      assert gops[..|gops|] == gops;
      if size > 0 {
        LastGroupsAreSuffix(History, size);
      } else {
        assert Flatten([[]]) == Flatten([[]][..0]) + [];
      }
    }
  }
}
