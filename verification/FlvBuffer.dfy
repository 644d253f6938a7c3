/** The FLV reader on a ring buffer (`crates/ez-ffmpeg/src/flv/flv_buffer.rs`); every operation is
    tied to the byte-queue reader of `FlvStream`. */
module FlvBuffers {
  import opened Bits
  import opened FlvRing
  import opened FlvStream
  import opened Options

  /** A cursor that reads forward and wraps at the end of the buffer. */
  class CursorRing {
    const buffer: array<u8>
    var position: nat

    ghost predicate Valid()
      reads this
    {
      position < buffer.Length
    }

    constructor (buffer: array<u8>, start: nat)
      requires start < buffer.Length
      ensures Valid() && this.buffer == buffer && position == start
    {
      this.buffer := buffer;
      position := start;
    }

    method Read(n: nat) returns (bytes: seq<u8>)
      requires Valid() && n <= buffer.Length
      modifies this
      ensures Valid() && position == Advance(old(position), n, buffer.Length)
      ensures bytes == RingRead(buffer[..], old(position), n)
    {
      bytes := [];
      if position + n > buffer.Length {
        bytes := buffer[position..];
        position := 0;
      }
      var remaining := n - |bytes|;
      if remaining > 0 {
        bytes := bytes + buffer[position..position + remaining];
        position := position + remaining;
      }
      if position == buffer.Length {
        position := 0;
      }
    }

    method ReadU8() returns (x: u8)
      requires Valid()
      modifies this
      ensures Valid() && position == Advance(old(position), 1, buffer.Length)
      ensures x == buffer[old(position)]
    {
      var b := Read(1);
      x := b[0];
    }

    method ReadU24() returns (x: u24)
      requires Valid() && buffer.Length >= 3
      modifies this
      ensures Valid() && position == Advance(old(position), 3, buffer.Length)
      ensures var b := RingRead(buffer[..], old(position), 3); x == BigEndian24(b[0], b[1], b[2])
    {
      var b := Read(3);
      x := BigEndian24(b[0], b[1], b[2]);
    }
  }

  class FlvBuffer {
    var buffer: array<u8>
    var head: nat
    var tail: nat
    var flvHeader: Option<u8>
    var headerParsed: bool
    var initialCapacity: nat

    ghost predicate Valid()
      reads this
    {
      && IsCapacity(buffer.Length) && IsCapacity(initialCapacity)
      && head < buffer.Length && tail < buffer.Length
    }

    ghost function Contents(): seq<u8>
      requires Valid()
      reads this, buffer
    {
      RingContents(buffer[..], head, tail)
    }

    /** The byte-queue reader this buffer stands for. */
    ghost function State(): Reader
      requires Valid()
      reads this, buffer
    {
      Reader(Contents(), headerParsed)
    }

    constructor (capacity: nat)
      requires IsCapacity(NextPow2(capacity))
      ensures Valid() && fresh(buffer) && State() == Fresh && flvHeader == None
      ensures buffer.Length == NextPow2(capacity) >= capacity
    {
      var size := NextPow2(capacity);
      buffer := new u8[size](_ => 0);
      head, tail := 0, 0;
      flvHeader, headerParsed := None, false;
      initialCapacity := size;
    }

    function Len(): (n: nat)
      requires Valid()
      reads this, buffer
      ensures n == |Contents()|
    {
      MaskedFormsAgree(buffer[..], head, tail);
      MaskedLen(head, tail, buffer.Length)
    }

    function AvailableSpace(): (n: nat)
      requires Valid()
      reads this, buffer
      ensures n == buffer.Length - 1 - |Contents()|
    {
      MaskedFormsAgree(buffer[..], head, tail);
      MaskedSpace(head, tail, buffer.Length)
    }

    /** Copies data into consecutive cells. */
    method CopyIn(data: seq<u8>, at: nat)
      requires at + |data| <= buffer.Length
      modifies buffer
      ensures forall i | 0 <= i < |data| :: buffer[at + i] == data[i]
      ensures forall i | 0 <= i < buffer.Length && (i < at || i >= at + |data|) :: buffer[i] == old(buffer[i])
    {
      forall i | 0 <= i < |data| {
        buffer[at + i] := data[i];
      }
    }

    /** Appends to the queue, growing the ring when the free cells do not suffice. */
    method WriteData(data: seq<u8>)
      requires Valid() && |Contents()| + |data| + 1 <= MAX_CAPACITY
      modifies this, buffer
      ensures Valid() && (buffer == old(buffer) || fresh(buffer))
      ensures old(|Contents()| + |data| < buffer.Length) ==> buffer == old(buffer)
      ensures buffer == old(buffer) || buffer.Length == initialCapacity
              || buffer.Length < 2 * (old(|Contents()|) + |data| + 1)
      ensures State() == Write(old(State()), data)
      ensures flvHeader == old(flvHeader) && initialCapacity == old(initialCapacity)
    {
      var dataLen := |data|;
      if dataLen == 0 {
        assert Contents() + data == Contents();
        return;
      }
      MakeRoom(dataLen);
      PutBehindTail(data);
    }

    method MakeRoom(dataLen: nat)
      requires Valid() && |Contents()| + dataLen + 1 <= MAX_CAPACITY
      modifies this
      ensures Valid() && |Contents()| + dataLen < buffer.Length && (buffer == old(buffer) || fresh(buffer))
      ensures old(|Contents()| + dataLen < buffer.Length) ==> buffer == old(buffer)
      ensures buffer == old(buffer) || buffer.Length == initialCapacity
              || buffer.Length < 2 * (old(|Contents()|) + dataLen + 1)
      ensures State() == old(State())
      ensures flvHeader == old(flvHeader) && initialCapacity == old(initialCapacity)
    {
      if dataLen > AvailableSpace() {
        ResizeBuffer(Len() + dataLen + 1);
      }
    }

    method PutBehindTail(data: seq<u8>)
      requires Valid() && 0 < |data| && |Contents()| + |data| < buffer.Length
      modifies `tail, buffer
      ensures Valid()
      ensures Contents() == old(Contents()) + data
    {
      ghost var before, t := buffer[..], tail;
      var end := FillCells(data);
      tail := end;
      AppendBack(before, buffer[..], head, t, data);
    }

    /** Writes data into the cells from the tail on, across the end of the buffer if need be. */
    method FillCells(data: seq<u8>) returns (end: nat)
      requires Valid() && 0 < |data| && |Contents()| + |data| < buffer.Length
      modifies buffer
      ensures end == Advance(tail, |data|, buffer.Length)
      ensures forall i | 0 <= i < |data| :: buffer[Advance(tail, i, buffer.Length)] == data[i]
      ensures forall i | 0 <= i < old(|Contents()|) ::
                buffer[Advance(head, i, buffer.Length)] == old(buffer[Advance(head, i, buffer.Length)])
    {
      var dataLen := |data|;
      if tail >= head {
        var availableAtEnd := buffer.Length - tail;
        if dataLen <= availableAtEnd {
          CopyIn(data, tail);
          end := tail + dataLen;
        } else {
          if availableAtEnd > 0 {
            CopyIn(data[..availableAtEnd], tail);
          }
          CopyIn(data[availableAtEnd..], 0);
          end := dataLen - availableAtEnd;
        }
      } else {
        CopyIn(data, tail);
        end := tail + dataLen;
      }
      if end == buffer.Length {
        end := 0;
      }
    }

    /** Copies the queue, in order, to the front of another buffer. */
    method CopyOut(newBuffer: array<u8>)
      requires Valid() && newBuffer != buffer && newBuffer.Length > |Contents()|
      modifies newBuffer
      ensures newBuffer[..|Contents()|] == Contents()
    {
      var currentLen := Len();
      if tail > head {
        forall i | 0 <= i < currentLen {
          newBuffer[i] := buffer[head + i];
        }
      } else if currentLen > 0 {
        var firstPart := buffer.Length - head;
        forall i | 0 <= i < firstPart {
          newBuffer[i] := buffer[head + i];
        }
        forall i | 0 <= i < currentLen - firstPart {
          newBuffer[firstPart + i] := buffer[i];
        }
      }
    }

    /** Moves the queue to the front of a larger buffer. */
    method ResizeBuffer(newCapacity: nat)
      requires Valid() && |Contents()| < newCapacity <= MAX_CAPACITY
      modifies this
      ensures Valid() && fresh(buffer) && buffer.Length >= newCapacity
      ensures buffer.Length >= initialCapacity && (buffer.Length == initialCapacity || buffer.Length < 2 * newCapacity)
      ensures State() == old(State())
      ensures flvHeader == old(flvHeader) && initialCapacity == old(initialCapacity)
    {
      var size := NewSize(newCapacity);
      var newBuffer := Relinearised(size);
      var currentLen := Len();
      buffer := newBuffer;
      head := 0;
      tail := currentLen;
    }

    function NewSize(newCapacity: nat): (size: nat)
      requires Valid() && newCapacity <= MAX_CAPACITY
      reads this
      ensures IsCapacity(size) && size >= newCapacity && size >= initialCapacity
      ensures size == initialCapacity || size < 2 * newCapacity
    {
      NextPow2IsCapacity(newCapacity);
      var size := NextPow2(newCapacity);
      if size < initialCapacity then initialCapacity else size
    }

    method Relinearised(size: nat) returns (newBuffer: array<u8>)
      requires Valid() && size > |Contents()|
      ensures fresh(newBuffer) && newBuffer.Length == size
      ensures RingContents(newBuffer[..], 0, |Contents()|) == Contents()
    {
      newBuffer := new u8[size](_ => 0);
      CopyOut(newBuffer);
      ContentsAtFront(newBuffer[..], |Contents()|);
      assert newBuffer[..][..|Contents()|] == newBuffer[..|Contents()|];
    }

    method SkipPreviousTagSize()
      requires head < 2 * buffer.Length - PREVIOUS_TAG_SIZE_LENGTH
      modifies `head
      ensures head == if old(head) + 4 >= buffer.Length then old(head) + 4 - buffer.Length else old(head) + 4
      ensures head < buffer.Length
    {
      head := head + PREVIOUS_TAG_SIZE_LENGTH;
      if head >= buffer.Length {
        head := head - buffer.Length;
      }
    }

    /** Bytes of the ring from `start` on, at most once round, padded with zeros. */
    method ReadData(start: nat, n: nat) returns (bytes: seq<u8>)
      requires Valid()
      ensures n <= buffer.Length ==> bytes == RingRead(buffer[..], start % buffer.Length, n)
      ensures |bytes| == n
    {
      var size := buffer.Length;
      var from := start % size;
      var safeLen := if n <= size then n else size;
      var firstLen, secondLen := safeLen, 0;
      if from + safeLen > size {
        firstLen, secondLen := size - from, safeLen - (size - from);
      }
      bytes := buffer[from..from + firstLen] + buffer[..secondLen] + seq(n - safeLen, _ => 0);
    }

    /** Drops the file header, or four bytes when there is none.  It keeps the queue exactly when the
        bytes to drop are there; otherwise the head passes the tail and the queue grows. */
    method ParseFlvHeader()
      requires Valid()
      modifies `head, `flvHeader, `headerParsed
      ensures Valid()
      ensures old(headerParsed) || old(|Contents()|) < 9 ==>
                State() == old(State()) && flvHeader == old(flvHeader) && head == old(head)
      ensures !old(headerParsed) && old(|Contents()|) >= 9 ==>
                && headerParsed
                && flvHeader == (if IsFlvHeader(old(Contents())) then Some(old(Contents())[4]) else old(flvHeader))
                && var n := HeaderSkip(old(Contents()));
                   && (n <= old(|Contents()|) ==> Contents() == old(Contents())[n..])
                   && (n > old(|Contents()|) ==> |Contents()| == old(|Contents()|) + buffer.Length - n)
                   && (|Contents()| <= old(|Contents()|) <==> n <= old(|Contents()|))
    {
      if headerParsed || Len() < FLV_HEADER_LENGTH {
        return;
      }
      CapacityAbove9(buffer.Length);
      var t := PeekHeader();
      HeadMoved(buffer[..], head, tail, HeaderSkip(Contents()));
      headerParsed := true;
      if IsFlvHeader(t) {
        flvHeader := Some(t[4]);
        head := head + FLV_HEADER_LENGTH;
      }
      SkipPreviousTagSize();
    }

    method PeekHeader() returns (t: seq<u8>)
      requires Valid() && |Contents()| >= 9
      ensures t == Contents()[..9]
    {
      AdvanceIsMod(head, 0, buffer.Length);
      ReadInQueue(buffer[..], head, tail, 0, FLV_HEADER_LENGTH);
      t := ReadData(head, FLV_HEADER_LENGTH);
    }

    /** The next complete tag, if there is one. */
    method GetFlvTag() returns (tag: Option<FlvTag>)
      requires Valid()
      modifies `head, `flvHeader, `headerParsed
      ensures Valid()
      ensures old(!HeaderRunsPast(State())) ==> (State(), tag) == Take(old(State()))
      ensures old(HeaderRunsPast(State())) ==>
                && headerParsed
                && |Contents()| + (if tag.Some? then tag.value.dataSize + 15 else 0)
                   == old(|Contents()|) + buffer.Length - 13
    {
      if Len() < FLV_TAG_HEADER_LENGTH {
        return None;
      }
      ParseFlvHeader();
      CapacityAbove9(buffer.Length);
      tag := NextTag();
    }

    /** The tag at the front, if it is complete. */
    method NextTag() returns (tag: Option<FlvTag>)
      requires Valid() && buffer.Length >= 16
      modifies `head
      ensures Valid()
      ensures var s := old(Contents());
              if HasTag(s) then tag == Some(FirstTag(s)) && Contents() == s[TotalTagSize(s)..]
              else tag == None && Contents() == s
    {
      ghost var b, c := buffer[..], Contents();
      var header := ReadTagHeader();
      if |c| >= 11 {
        ReadInQueue(b, head, tail, 0, 11);
        assert RingRead(b, head, 11) == c[..11];
      }
      var totalTagSize := FLV_TAG_HEADER_LENGTH + header.dataSize + PREVIOUS_TAG_SIZE_LENGTH;
      if Len() < totalTagSize {
        return None;
      }
      var data := ConsumeTag(header.dataSize);
      tag := Some(header.(data := data, previousTagSize := FLV_TAG_HEADER_LENGTH + header.dataSize));
    }

    /** Reads the data of the tag at the front and moves the head past the whole tag. */
    method ConsumeTag(dataSize: nat) returns (data: seq<u8>)
      requires Valid() && |Contents()| >= dataSize + 15
      modifies `head
      ensures Valid() && Contents() == old(Contents())[dataSize + 15..]
      ensures data == old(Contents())[11..11 + dataSize]
    {
      ghost var b, h := buffer[..], head;
      AdvanceIsMod(head, FLV_TAG_HEADER_LENGTH, buffer.Length);
      ReadInQueue(b, head, tail, FLV_TAG_HEADER_LENGTH, dataSize);
      data := ReadData(head + FLV_TAG_HEADER_LENGTH, dataSize);
      var totalTagSize := FLV_TAG_HEADER_LENGTH + dataSize + PREVIOUS_TAG_SIZE_LENGTH;
      DropFront(b, head, tail, totalTagSize);
      head := head + totalTagSize;
      while head >= buffer.Length
        invariant head == h + totalTagSize || head + buffer.Length == h + totalTagSize
      {
        head := head - buffer.Length;
      }
      assert head == Advance(h, totalTagSize, buffer.Length);
    }

    /** The fixed fields of a tag header, read at the head. */
    method ReadTagHeader() returns (header: FlvTag)
      requires Valid() && buffer.Length >= 16
      ensures var h := RingRead(buffer[..], head, 11);
              header == FlvTag(h[0], BigEndian24(h[1], h[2], h[3]), BigEndian24(h[4], h[5], h[6]), h[7], 0, [], 0)
    {
      HeaderInParts(buffer[..], head);
      var reader := new CursorRing(buffer, head);
      var tagType := reader.ReadU8();
      var dataSize := reader.ReadU24();
      var timestamp := reader.ReadU24();
      var timestampExt := reader.ReadU8();
      var streamId := reader.ReadU24();
      header := FlvTag(tagType, dataSize, timestamp, timestampExt, 0, [], 0);
    }
  }

  /** The fields of a tag header, read one after the other. */
  lemma HeaderInParts(b: seq<u8>, p: nat)
    requires p < |b| && |b| >= 16
    ensures var h, n := RingRead(b, p, 11), |b|;
            && Advance(Advance(p, 1, n), 3, n) == Advance(p, 4, n)
            && Advance(Advance(p, 4, n), 3, n) == Advance(p, 7, n)
            && b[p] == h[0] && b[Advance(p, 7, n)] == h[7]
            && RingRead(b, Advance(p, 1, n), 3) == [h[1], h[2], h[3]]
            && RingRead(b, Advance(p, 4, n), 3) == [h[4], h[5], h[6]]
  {
    ReadInParts(b, p, 11, 1, 3);
    ReadInParts(b, p, 11, 4, 3);
    RingReadAt(b, p, 11, 0);
    RingReadAt(b, p, 11, 7);
  }

  /** The gap is real: eleven bytes of a valid file, one request, and the queue holds fourteen. */
  method HeaderGap() returns (b: FlvBuffer, tag: Option<FlvTag>)
    ensures b.Valid() && b.headerParsed && tag == None
    ensures |b.Contents()| == 14
  {
    ElevenHeaderBytes();
    b := new FlvBuffer(16);
    b.WriteData(HeaderBytes(5)[..11]);
    assert b.State().pending == HeaderBytes(5)[..11];
    tag := b.GetFlvTag();
  }

  lemma ElevenHeaderBytes()
    ensures NextPow2(16) == 16 && IsCapacity(16) && 16 <= MAX_CAPACITY
    ensures forall r: Reader | r == Reader(HeaderBytes(5)[..11], false) :: HeaderRunsPast(r)
    ensures [] + HeaderBytes(5)[..11] == HeaderBytes(5)[..11]
  {
    assert Pow2(4) == 16;
    NextPow2OfPow2(4);
    var s := HeaderBytes(5)[..11];
    assert IsFlvHeader(s);
  }

  lemma NextPow2IsCapacity(n: nat)
    requires n <= MAX_CAPACITY
    ensures IsCapacity(NextPow2(n))
  {
    MaxCapacity();
    NextPow2Bounded(n, 0);
  }

  lemma {:induction false} NextPow2Bounded(n: nat, k: nat)
    requires n <= Pow2(MAX_EXPONENT) && k <= MAX_EXPONENT && (k == 0 || Pow2(k - 1) < n)
    ensures IsCapacity(NextPow2From(n, k))
    decreases MAX_EXPONENT - k
  {
    if Pow2(k) < n {
      assert k < MAX_EXPONENT;
      NextPow2Bounded(n, k + 1);
    }
  }
}
