/**
  What a segment of src/segment.c holds, as values: frames one after the other from the start of
  the buffer, and for each frame the index entry with the place where it begins. Recovery is here
  too: a scan of the index that must find the end of the last frame.
*/
module SegmentLayout {
  import opened Prot
  import opened Crc32

  type Payload = seq<byte>

  /** The checksum of a payload, as the number stored in the header. */
  function Crc(p: Payload): (n: nat)
    ensures n < WORD
  {
    Checksum(0, p) as int
  }

  function FrameLength(p: Payload): nat {
    HEADER_SIZE + |p|
  }

  function Frame(p: Payload): (s: seq<byte>)
    requires FrameLength(p) < WORD
    ensures |s| == FrameLength(p)
  {
    Header(FLAGS_READY, FrameLength(p), Crc(p)) + p
  }

  /** Where frame `i` begins: the sum of the sizes of the frames before it. */
  function Offset(frames: seq<Payload>, i: nat): nat
    requires i <= |frames|
  {
    if i == 0 then 0 else Offset(frames, i - 1) + FrameLength(frames[i - 1])
  }

  function End(frames: seq<Payload>): nat {
    Offset(frames, |frames|)
  }

  lemma {:induction false} OffsetsAscend(frames: seq<Payload>, i: nat, j: nat)
    requires i < j <= |frames|
    ensures Offset(frames, i) + FrameLength(frames[i]) <= Offset(frames, j)
    decreases j
  {
    if i + 1 < j {
      OffsetsAscend(frames, i, j - 1);
    }
  }

  lemma {:induction false} OffsetStays(frames: seq<Payload>, more: seq<Payload>, i: nat)
    requires i <= |frames|
    ensures Offset(frames + more, i) == Offset(frames, i)
  {
    if i > 0 {
      OffsetStays(frames, more, i - 1);
    }
  }

  lemma EndSnoc(frames: seq<Payload>, p: Payload)
    ensures End(frames + [p]) == End(frames) + FrameLength(p)
  {
    OffsetStays(frames, [p], |frames|);
  }

  /** The buffer holds `frames` one after the other, each complete. */
  ghost predicate Holds(buffer: seq<byte>, frames: seq<Payload>) {
    && End(frames) <= |buffer| < WORD
    && forall i {:trigger HoldsAt(buffer, Offset(frames, i), frames[i])} | 0 <= i < |frames| ::
         HoldsAt(buffer, Offset(frames, i), frames[i])
  }

  ghost predicate HoldsAt(buffer: seq<byte>, at: nat, p: Payload) {
    at + FrameLength(p) <= |buffer| < WORD && buffer[at..at + FrameLength(p)] == Frame(p)
  }

  /** The index has one entry for each frame, and nothing after. */
  ghost predicate Indexed(index: seq<nat>, frames: seq<Payload>) {
    && |frames| <= |index|
    && (forall i | 0 <= i < |frames| :: index[i] == Offset(frames, i))
    && (forall i | |frames| <= i < |index| :: index[i] == 0)
  }

  /** The four bytes from `at` on, the lowest first, are the number `n`. */
  predicate LowestFirst(b: seq<byte>, at: nat, n: nat)
    requires at + 4 <= |b|
  {
    b[at] as int + 0x100 * (b[at + 1] as int) + 0x1_0000 * (b[at + 2] as int) + 0x100_0000 * (b[at + 3] as int) == n
  }

  /** A frame, byte by byte: flags, version, padding, size, the checksum of the payload from zero, and the payload. */
  predicate IsFrame(b: seq<byte>, at: nat, p: Payload) {
    && at + 12 + |p| <= |b|
    && b[at] == 0xef && b[at + 1] == 0xbe && b[at + 2] == 0 && b[at + 3] == 0
    && LowestFirst(b, at + 4, 12 + |p|) && LowestFirst(b, at + 8, Checksum(0, p) as int)
    && b[at + 12..at + 12 + |p|] == p
  }

  /** An end marker, but for its checksum. */
  predicate IsMarker(b: seq<byte>, at: nat) {
    && at + 12 <= |b|
    && b[at] == 0xaa && b[at + 1] == 0xaa && b[at + 2] == 0 && b[at + 3] == 0 && LowestFirst(b, at + 4, 12)
  }

  /** A complete frame reads back: its flags, its size and its payload; and these are its bytes. */
  lemma FrameReads(buffer: seq<byte>, at: nat, p: Payload)
    requires HoldsAt(buffer, at, p)
    ensures IsFrame(buffer, at, p)
    ensures Flags(buffer, at) == FLAGS_READY && FrameSize(buffer, at) == FrameLength(p)
    ensures buffer[at + HEADER_SIZE..at + FrameLength(p)] == p
  {
    var f := buffer[at..at + FrameLength(p)];
    var h := Header(FLAGS_READY, FrameLength(p), Crc(p));
    assert f[..HEADER_SIZE] == h && f[HEADER_SIZE..] == p;
    SliceOfSlice(buffer, at, at + FrameLength(p), 0, HEADER_SIZE);
    SliceOfSlice(buffer, at, at + FrameLength(p), HEADER_SIZE, FrameLength(p));
    HeaderReads(buffer, at, FLAGS_READY, FrameLength(p), Crc(p));
    HeaderBytes(buffer, at, FLAGS_READY, FrameLength(p), Crc(p));
  }

  /** The bytes of a header. */
  lemma HeaderBytes(b: seq<byte>, at: nat, flags: nat, size: nat, crc: nat)
    requires flags < 0x1_0000 && size < WORD && crc < WORD
    requires at + HEADER_SIZE <= |b| && b[at..at + HEADER_SIZE] == Header(flags, size, crc)
    ensures b[at] as int == flags % 256 && b[at + 1] as int == flags / 256 && b[at + 2] == 0 && b[at + 3] == 0
    ensures LowestFirst(b, at + 4, size) && LowestFirst(b, at + 8, crc)
  {
    hide Le32;
    var h := Header(flags, size, crc);
    assert forall i | 0 <= i < 12 :: h[i] == b[at + i];
    Le32Bytes(size);
    Le32Bytes(crc);
    BytesOf(size);
    BytesOf(crc);
  }

  lemma HoldsAtKept(buffer: seq<byte>, after: seq<byte>, at: nat, p: Payload, end: nat)
    requires HoldsAt(buffer, at, p) && at + FrameLength(p) <= end <= |buffer| == |after|
    requires after[..end] == buffer[..end]
    ensures HoldsAt(after, at, p)
  {
    SliceOfSlice(after, 0, end, at, at + FrameLength(p));
    SliceOfSlice(buffer, 0, end, at, at + FrameLength(p));
  }

  /** Bytes beyond the last frame do not matter. */
  lemma HoldsKept(buffer: seq<byte>, after: seq<byte>, frames: seq<Payload>)
    requires Holds(buffer, frames) && |after| == |buffer| && after[..End(frames)] == buffer[..End(frames)]
    ensures Holds(after, frames)
  {
    hide HoldsAt, Offset;
    forall i | 0 <= i < |frames| ensures HoldsAt(after, Offset(frames, i), frames[i]) {
      assert HoldsAt(buffer, Offset(frames, i), frames[i]);
      OffsetsAscend(frames, i, |frames|);
      HoldsAtKept(buffer, after, Offset(frames, i), frames[i], End(frames));
    }
  }

  lemma HoldsAtBounds(buffer: seq<byte>, at: nat, p: Payload)
    requires HoldsAt(buffer, at, p)
    ensures at + FrameLength(p) <= |buffer|
  {
  }

  lemma HoldsSnoc(buffer: seq<byte>, frames: seq<Payload>, p: Payload)
    requires Holds(buffer, frames) && HoldsAt(buffer, End(frames), p)
    ensures Holds(buffer, frames + [p])
  {
    hide HoldsAt, Offset;
    HoldsAtBounds(buffer, End(frames), p);
    EndSnoc(frames, p);
    forall i | 0 <= i < |frames| + 1 ensures HoldsAt(buffer, Offset(frames + [p], i), (frames + [p])[i]) {
      OffsetStays(frames, [p], i);
    }
  }

  lemma IndexedSnoc(index: seq<nat>, frames: seq<Payload>, p: Payload)
    requires Indexed(index, frames) && |frames| < |index|
    ensures Indexed(index[|frames| := End(frames)], frames + [p])
  {
    forall i | 0 <= i <= |frames| ensures Offset(frames + [p], i) == Offset(frames, i) {
      OffsetStays(frames, [p], i);
    }
  }

  // Recovery.

  datatype Position = Position(index: nat, data: nat)

  datatype Option<T> = None | Some(value: T)

  /** The slot where the scan of the index stops. */
  ghost predicate StopsAt(buffer: seq<byte>, index: seq<nat>, i: nat)
    requires |buffer| >= HEADER_SIZE
  {
    i < |index| && index[i] == 0 && !(i == 0 && IsHeader(buffer, 0))
  }

  /** The write position that recovery finds: the first slot where the scan stops, past the frame before it. */
  ghost predicate Recovers(buffer: seq<byte>, index: seq<nat>, r: Option<Position>)
    requires |buffer| >= HEADER_SIZE
  {
    match r
    case None => forall i | 0 <= i < |index| :: !StopsAt(buffer, index, i)
    case Some(p) =>
      && StopsAt(buffer, index, p.index)
      && (forall i | 0 <= i < p.index :: !StopsAt(buffer, index, i))
      && (p.index == 0 ==> p.data == 0)
      && (p.index > 0 ==>
            && index[p.index - 1] + HEADER_SIZE <= |buffer|
            && p.data == index[p.index - 1] + FrameSize(buffer, index[p.index - 1]))
  }

  lemma FrameAt(buffer: seq<byte>, frames: seq<Payload>, i: nat)
    requires Holds(buffer, frames) && i < |frames|
    ensures Offset(frames, i) + FrameLength(frames[i]) <= |buffer|
    ensures Offset(frames, i + 1) == Offset(frames, i) + FrameLength(frames[i])
    ensures Flags(buffer, Offset(frames, i)) == FLAGS_READY
    ensures FrameSize(buffer, Offset(frames, i)) == FrameLength(frames[i])
    ensures buffer[Offset(frames, i) + HEADER_SIZE..Offset(frames, i) + FrameLength(frames[i])] == frames[i]
  {
    assert HoldsAt(buffer, Offset(frames, i), frames[i]);
    FrameReads(buffer, Offset(frames, i), frames[i]);
  }

  lemma EntriesPositive(index: seq<nat>, frames: seq<Payload>)
    requires Indexed(index, frames)
    ensures forall i | 0 < i < |frames| :: index[i] > 0
    ensures frames != [] ==> index[0] == 0
  {
    forall i | 0 < i < |frames| ensures index[i] > 0 {
      OffsetsAscend(frames, 0, i);
    }
  }

  /** Where recovery finds the end, when the segment holds frames and a slot is left. */
  lemma RecoversFrames(buffer: seq<byte>, index: seq<nat>, frames: seq<Payload>, r: Option<Position>)
    requires |buffer| >= HEADER_SIZE && Recovers(buffer, index, r)
    requires Holds(buffer, frames) && Indexed(index, frames) && |frames| < |index|
    requires frames == [] ==> !IsHeader(buffer, 0)
    ensures r == Some(Position(|frames|, End(frames)))
  {
    hide Holds, Offset, FrameSize, Flags;
    var n := |frames|;
    EntriesPositive(index, frames);
    if n > 0 {
      FirstOffset(frames);
      FrameAt(buffer, frames, 0);
      FrameAt(buffer, frames, n - 1);
    } else {
      FirstOffset(frames);
    }
    assert StopsAt(buffer, index, n);
    assert forall i | 0 <= i < n :: !StopsAt(buffer, index, i);
  }

  lemma FirstOffset(frames: seq<Payload>)
    ensures Offset(frames, 0) == 0
  {
  }

  // Stores into the buffer.

  function Stored(b: seq<byte>, at: nat, s: seq<byte>): (after: seq<byte>)
    requires at + |s| <= |b|
    ensures |after| == |b|
  {
    b[..at] + s + b[at + |s|..]
  }

  lemma StoredThere(b: seq<byte>, at: nat, s: seq<byte>)
    requires at + |s| <= |b|
    ensures Stored(b, at, s)[at..at + |s|] == s
  {
  }

  lemma StoredElsewhere(b: seq<byte>, at: nat, s: seq<byte>, c: nat, d: nat)
    requires at + |s| <= |b| && c <= d <= |b| && (d <= at || at + |s| <= c)
    ensures Stored(b, at, s)[c..d] == b[c..d]
  {
    forall k | 0 <= k < d - c ensures Stored(b, at, s)[c..d][k] == b[c..d][k] {
    }
  }

  /** The header stores of a frame: flags cleared, then checksum, then size, then the flags that publish it. */
  function PutHeader(b: seq<byte>, at: nat, flags: nat, size: nat, crc: nat): (after: seq<byte>)
    requires at + HEADER_SIZE <= |b| && flags < 0x1_0000 && size < WORD && crc < WORD
    ensures |after| == |b|
  {
    var b1 := Stored(b, at, Le16(FLAGS_EMPTY) + [0, 0]);
    var b2 := Stored(b1, at + 8, Le32(crc));
    var b3 := Stored(b2, at + 4, Le32(size));
    Stored(b3, at, Le16(flags))
  }

  lemma PutHeaderHolds(b: seq<byte>, at: nat, flags: nat, size: nat, crc: nat)
    requires at + HEADER_SIZE <= |b| && flags < 0x1_0000 && size < WORD && crc < WORD
    ensures PutHeader(b, at, flags, size, crc)[at..at + HEADER_SIZE] == Header(flags, size, crc)
    ensures forall c, d | 0 <= c <= d <= at || at + HEADER_SIZE <= c <= d <= |b| ::
              PutHeader(b, at, flags, size, crc)[c..d] == b[c..d]
  {
    hide Stored, Le16, Le32;
    var b1 := Stored(b, at, Le16(FLAGS_EMPTY) + [0, 0]);
    var b2 := Stored(b1, at + 8, Le32(crc));
    var b3 := Stored(b2, at + 4, Le32(size));
    var b4 := Stored(b3, at, Le16(flags));
    StoredThere(b, at, Le16(FLAGS_EMPTY) + [0, 0]);
    SliceOfSlice(b1, at, at + 4, 2, 4);
    StoredElsewhere(b1, at + 8, Le32(crc), at + 2, at + 4);
    StoredElsewhere(b2, at + 4, Le32(size), at + 2, at + 4);
    StoredElsewhere(b3, at, Le16(flags), at + 2, at + 4);
    StoredThere(b1, at + 8, Le32(crc));
    StoredElsewhere(b2, at + 4, Le32(size), at + 8, at + 12);
    StoredElsewhere(b3, at, Le16(flags), at + 8, at + 12);
    StoredThere(b2, at + 4, Le32(size));
    StoredElsewhere(b3, at, Le16(flags), at + 4, at + 8);
    StoredThere(b3, at, Le16(flags));
    HeaderParts(b4, at, flags, size, crc);
    forall c, d | 0 <= c <= d <= at || at + HEADER_SIZE <= c <= d <= |b| ensures b4[c..d] == b[c..d] {
      StoredElsewhere(b, at, Le16(FLAGS_EMPTY) + [0, 0], c, d);
      StoredElsewhere(b1, at + 8, Le32(crc), c, d);
      StoredElsewhere(b2, at + 4, Le32(size), c, d);
      StoredElsewhere(b3, at, Le16(flags), c, d);
    }
  }

  lemma HeaderParts(b: seq<byte>, at: nat, flags: nat, size: nat, crc: nat)
    requires at + HEADER_SIZE <= |b| && flags < 0x1_0000 && size < WORD && crc < WORD
    requires b[at..at + 2] == Le16(flags) && b[at + 2..at + 4] == [0, 0]
    requires b[at + 4..at + 8] == Le32(size) && b[at + 8..at + 12] == Le32(crc)
    ensures b[at..at + HEADER_SIZE] == Header(flags, size, crc)
  {
    assert b[at..at + 12] == b[at..at + 2] + b[at + 2..at + 4] + b[at + 4..at + 8] + b[at + 8..at + 12];
  }

  /** The stores of a frame in the order of the writer: the payload first, then the header. */
  function PutFrame(b: seq<byte>, at: nat, p: Payload): (after: seq<byte>)
    requires at + FrameLength(p) <= |b| < WORD
    ensures |after| == |b|
  {
    PutHeader(Stored(b, at + HEADER_SIZE, p), at, FLAGS_READY, FrameLength(p), Crc(p))
  }

  lemma PutFrameHolds(b: seq<byte>, at: nat, p: Payload)
    requires at + FrameLength(p) <= |b| < WORD
    ensures HoldsAt(PutFrame(b, at, p), at, p) && IsFrame(PutFrame(b, at, p), at, p)
    ensures PutFrame(b, at, p)[..at] == b[..at]
    ensures PutFrame(b, at, p)[at + 12 + |p|..] == b[at + 12 + |p|..]
  {
    hide Stored, PutHeader, IsFrame;
    var b1 := Stored(b, at + HEADER_SIZE, p);
    var after := PutFrame(b, at, p);
    StoredThere(b, at + HEADER_SIZE, p);
    StoredElsewhere(b, at + HEADER_SIZE, p, 0, at);
    PutHeaderHolds(b1, at, FLAGS_READY, FrameLength(p), Crc(p));
    assert after[0..at] == b1[0..at]
           && after[at + HEADER_SIZE..at + FrameLength(p)] == b1[at + HEADER_SIZE..at + FrameLength(p)];
    assert after[at..at + FrameLength(p)] == after[at..at + HEADER_SIZE] + after[at + HEADER_SIZE..at + FrameLength(p)];
    FrameReads(after, at, p);
    StoredElsewhere(b, at + HEADER_SIZE, p, at + FrameLength(p), |b|);
    assert after[at + FrameLength(p)..|b|] == b1[at + FrameLength(p)..|b|];
  }

  // The state of a segment.

  /** Bytes for the index over the size of an entry: one slot for every 96 bytes of data. */
  function Capacity(size: nat): (slots: nat)
    ensures 96 * slots <= size + 1 < 96 * (slots + 1)
  {
    (size + 1) / HEADER_SIZE / 8
  }

  /**
    A segment with `frames` and, when `eos`, the end marker after them. A `stub` is what is left of
    a payload too large for any segment: an end marker alone, recovered as if it were a frame.
  */
  datatype View = View(buffer: seq<byte>, index: seq<nat>, w: Position, frames: seq<Payload>, eos: bool, stub: bool)

  ghost predicate WellFormed(v: View) {
    && HEADER_SIZE <= |v.buffer| < WORD && |v.index| == Capacity(|v.buffer|)
    && Holds(v.buffer, v.frames)
    && Indexed(v.index, v.frames)
    && v.w.index == |v.frames| + (if v.stub then 1 else 0)
    && v.w.data == End(v.frames) + (if v.eos then HEADER_SIZE else 0)
    && (if v.eos
        then v.w.data <= |v.buffer| && Flags(v.buffer, End(v.frames)) == FLAGS_EOS
             && FrameSize(v.buffer, End(v.frames)) == HEADER_SIZE
        else v.w.data + HEADER_SIZE <= |v.buffer|)
    && (v.stub ==> v.frames == [] && v.eos)
    && (v.frames == [] && !v.eos ==> !IsHeader(v.buffer, 0))
  }

  /** The check that precedes a write: the last twelve bytes look like an end marker. */
  predicate MarkedEos(v: View)
    requires v.w.data <= |v.buffer|
  {
    v.w.data >= HEADER_SIZE && Flags(v.buffer, v.w.data - HEADER_SIZE) == FLAGS_EOS
  }

  predicate Fits(v: View, n: nat)
    requires v.w.data <= |v.buffer|
  {
    HEADER_SIZE + (HEADER_SIZE + n) <= |v.buffer| - v.w.data
  }

  function AfterWrite(v: View, p: Payload): View
    requires v.w.data <= |v.buffer| < WORD && Fits(v, |p|) && v.w.index < |v.index|
  {
    View(PutFrame(v.buffer, v.w.data, p), v.index[v.w.index := v.w.data],
         Position(v.w.index + 1, v.w.data + FrameLength(p)), v.frames + [p], v.eos, v.stub)
  }

  function AfterEos(v: View): View
    requires v.w.data + HEADER_SIZE <= |v.buffer|
  {
    View(PutEos(v.buffer, v.w.data), v.index, Position(v.w.index, v.w.data + HEADER_SIZE), v.frames, true, v.stub)
  }

  /** The stores of the end marker; its checksum field keeps whatever was there. */
  function PutEos(b: seq<byte>, at: nat): (after: seq<byte>)
    requires at + HEADER_SIZE <= |b|
    ensures |after| == |b|
  {
    Stored(Stored(Stored(b, at, Le16(FLAGS_EMPTY) + [0, 0]), at + 4, Le32(HEADER_SIZE)), at, Le16(FLAGS_EOS))
  }

  lemma PutEosHolds(b: seq<byte>, at: nat)
    requires at + HEADER_SIZE <= |b|
    ensures Flags(PutEos(b, at), at) == FLAGS_EOS && FrameSize(PutEos(b, at), at) == HEADER_SIZE
    ensures IsMarker(PutEos(b, at), at)
    ensures PutEos(b, at)[..at] == b[..at] && PutEos(b, at)[at + 8..] == b[at + 8..]
  {
    hide Stored, Le16, Le32, IsMarker;
    var b1 := Stored(b, at, Le16(FLAGS_EMPTY) + [0, 0]);
    var b2 := Stored(b1, at + 4, Le32(HEADER_SIZE));
    var b3 := Stored(b2, at, Le16(FLAGS_EOS));
    StoredElsewhere(b, at, Le16(FLAGS_EMPTY) + [0, 0], 0, at);
    StoredElsewhere(b1, at + 4, Le32(HEADER_SIZE), 0, at);
    StoredElsewhere(b2, at, Le16(FLAGS_EOS), 0, at);
    StoredThere(b, at, Le16(FLAGS_EMPTY) + [0, 0]);
    SliceOfSlice(b1, at, at + 4, 2, 4);
    StoredElsewhere(b1, at + 4, Le32(HEADER_SIZE), at + 2, at + 4);
    StoredElsewhere(b2, at, Le16(FLAGS_EOS), at + 2, at + 4);
    StoredThere(b1, at + 4, Le32(HEADER_SIZE));
    StoredElsewhere(b2, at, Le16(FLAGS_EOS), at + 4, at + 8);
    StoredThere(b2, at, Le16(FLAGS_EOS));
    Read16(b3, at, FLAGS_EOS);
    Read32(b3, at + 4, HEADER_SIZE);
    assert b3[0..at] == b[0..at];
    MarkerBytes(b3, at);
    StoredElsewhere(b, at, Le16(FLAGS_EMPTY) + [0, 0], at + 8, |b|);
    StoredElsewhere(b1, at + 4, Le32(HEADER_SIZE), at + 8, |b|);
    StoredElsewhere(b2, at, Le16(FLAGS_EOS), at + 8, |b|);
    assert b3[at + 8..|b|] == b[at + 8..|b|];
  }

  lemma MarkerBytes(b: seq<byte>, at: nat)
    requires at + HEADER_SIZE <= |b| && b[at..at + 2] == Le16(FLAGS_EOS) && b[at + 2..at + 4] == [0, 0]
    requires b[at + 4..at + 8] == Le32(HEADER_SIZE)
    ensures IsMarker(b, at)
  {
    var f, v, w := b[at..at + 2], b[at + 2..at + 4], b[at + 4..at + 8];
    assert b[at] == f[0] && b[at + 1] == f[1] && b[at + 2] == v[0] && b[at + 3] == v[1];
    assert b[at + 4] == w[0] && b[at + 5] == w[1] && b[at + 6] == w[2] && b[at + 7] == w[3];
  }

  /** A write of what fits adds one frame, and keeps every earlier frame where it is. */
  lemma WriteKeeps(v: View, p: Payload)
    requires WellFormed(v) && !MarkedEos(v) && Fits(v, |p|) && v.w.index < |v.index|
    ensures WellFormed(AfterWrite(v, p)) && !v.eos && !v.stub
  {
    hide Holds, HoldsAt, Offset, PutFrame, Indexed, Flags, FrameSize;
    assert !v.eos;
    var after := AfterWrite(v, p);
    PutFrameHolds(v.buffer, v.w.data, p);
    HoldsKept(v.buffer, after.buffer, v.frames);
    HoldsSnoc(after.buffer, v.frames, p);
    EndSnoc(v.frames, p);
    IndexedSnoc(v.index, v.frames, p);
  }

  /** The end marker goes where the next frame would have gone, and there is always room for it. */
  lemma EosKeeps(v: View)
    requires WellFormed(v) && !MarkedEos(v)
    ensures !v.eos && !v.stub && v.w.data + HEADER_SIZE <= |v.buffer| && WellFormed(AfterEos(v))
  {
    hide Holds, HoldsAt, Offset, PutEos, Indexed, FrameSize;
    assert !v.eos;
    PutEosHolds(v.buffer, v.w.data);
    HoldsKept(v.buffer, AfterEos(v).buffer, v.frames);
  }

  lemma InBounds(v: View)
    requires WellFormed(v)
    ensures HEADER_SIZE <= |v.buffer| < WORD && v.w.data <= |v.buffer|
    ensures |v.index| == Capacity(|v.buffer|)
  {
  }

  // Reading.

  lemma ReadsFrame(v: View, i: nat)
    requires WellFormed(v) && i < |v.frames|
    ensures i < v.w.index && i < |v.index| && v.index[i] == Offset(v.frames, i) && (i > 0 ==> v.index[i] > 0)
    ensures v.index[i] + FrameLength(v.frames[i]) <= v.w.data
    ensures Flags(v.buffer, v.index[i]) == FLAGS_READY
    ensures FrameSize(v.buffer, v.index[i]) == FrameLength(v.frames[i])
    ensures v.buffer[v.index[i] + HEADER_SIZE..v.index[i] + FrameLength(v.frames[i])] == v.frames[i]
  {
    hide Flags, FrameSize, Holds, HoldsAt, Offset;
    FrameAt(v.buffer, v.frames, i);
    EntriesPositive(v.index, v.frames);
    OffsetsAscend(v.frames, i, |v.frames|);
  }

  lemma ReadsPast(v: View, i: nat)
    requires WellFormed(v) && i >= |v.frames|
    ensures i < v.w.index <==> v.stub && i == 0
    ensures v.stub ==> v.w.data == HEADER_SIZE <= |v.buffer| && Flags(v.buffer, 0) == FLAGS_EOS
    ensures v.stub && |v.index| > 0 ==> v.index[0] == 0
  {
  }

  // The sync mark.

  /** The sync mark sits at the end of a frame or of the end marker; `synced` frames are below it. */
  ghost predicate SyncedTo(v: View, s: Position, synced: nat)
  {
    && s.data <= v.w.data <= |v.buffer| && s.index <= v.w.index <= |v.index|
    && s.index <= synced + (if v.stub then 1 else 0) && synced <= |v.frames|
    && (s.data == Offset(v.frames, synced) || (v.eos && s.data == v.w.data && synced == |v.frames|))
    && (v.stub ==> s == v.w)
  }

  lemma SyncedBoundary(v: View, s: Position, synced: nat, i: nat)
    requires WellFormed(v) && SyncedTo(v, s, synced) && i < |v.frames|
    ensures Offset(v.frames, i) < s.data <==> i < synced
    ensures i < synced ==> Offset(v.frames, i) + FrameLength(v.frames[i]) <= s.data
  {
    hide Holds, Indexed, Flags, FrameSize, Offset;
    OffsetsAscend(v.frames, i, |v.frames|);
    if i < synced {
      OffsetsAscend(v.frames, i, synced);
    } else if synced < i {
      OffsetsAscend(v.frames, synced, i);
    }
  }

  lemma WriteKeepsSynced(v: View, p: Payload, s: Position, synced: nat)
    requires WellFormed(v) && !v.eos && !v.stub && Fits(v, |p|) && v.w.index < |v.index|
    requires SyncedTo(v, s, synced)
    ensures SyncedTo(AfterWrite(v, p), s, synced)
  {
    hide Holds, Indexed, PutFrame;
    OffsetStays(v.frames, [p], synced);
  }

  lemma EosKeepsSynced(v: View, s: Position, synced: nat)
    requires WellFormed(v) && !v.eos && !v.stub && SyncedTo(v, s, synced)
    ensures v.w.data + HEADER_SIZE <= |v.buffer| && SyncedTo(AfterEos(v), s, synced)
  {
    hide Holds, Indexed, PutEos;
  }

  lemma PrefixOfPrefix<T>(a: seq<T>, b: seq<T>, n: nat, m: nat)
    requires m <= n <= |a| && n <= |b| && a[..n] == b[..n]
    ensures a[..m] == b[..m]
  {
    assert a[..n][..m] == a[..m] && b[..n][..m] == b[..m];
  }

  // Reopening.

  /** A file that recovery reads: whole frames with a free slot after them, or an end marker alone. */
  ghost predicate OnFile(buffer: seq<byte>, index: seq<nat>, frames: seq<Payload>, stub: bool) {
    && HEADER_SIZE <= |buffer| < WORD && |index| == Capacity(|buffer|)
    && Holds(buffer, frames) && Indexed(index, frames)
    && (if stub
        then frames == [] && Flags(buffer, 0) == FLAGS_EOS && FrameSize(buffer, 0) == HEADER_SIZE
        else End(frames) + HEADER_SIZE <= |buffer| && (frames == [] ==> !IsHeader(buffer, 0)))
  }

  /** Closing a segment leaves a file with its frames; an end marker after frames is dropped on reopening. */
  lemma CloseLeaves(v: View)
    requires WellFormed(v)
    ensures OnFile(v.buffer, v.index, v.frames, v.frames == [] && v.eos)
  {
    hide Holds, Indexed, Flags, FrameSize;
  }

  function Reopened(buffer: seq<byte>, index: seq<nat>, frames: seq<Payload>, stub: bool): View {
    View(buffer, index, if stub then Position(1, HEADER_SIZE) else Position(|frames|, End(frames)), frames, stub, stub)
  }

  /** Recovery finds the frames of a file exactly when the index has a slot left; otherwise it fails. */
  lemma RecoversFile(buffer: seq<byte>, index: seq<nat>, frames: seq<Payload>, stub: bool, r: Option<Position>)
    requires OnFile(buffer, index, frames, stub) && Recovers(buffer, index, r)
    ensures
      var v := Reopened(buffer, index, frames, stub);
      r == (if v.w.index < |index| then Some(v.w) else None) && (v.w.index <= |index| ==> WellFormed(v))
  {
    hide Holds, Offset, FrameSize, Flags;
    FirstOffset(frames);
    if stub {
      assert !StopsAt(buffer, index, 0);
      if 1 < |index| {
        assert StopsAt(buffer, index, 1);
      }
    } else if |frames| < |index| {
      RecoversFrames(buffer, index, frames, r);
    } else {
      EntriesPositive(index, frames);
      if frames != [] {
        FrameAt(buffer, frames, 0);
      }
      assert forall i | 0 <= i < |index| :: !StopsAt(buffer, index, i);
    }
  }

  /** A file is opened within bounds: every index entry leaves room for a header. */
  lemma EntriesInBounds(buffer: seq<byte>, index: seq<nat>, frames: seq<Payload>, stub: bool)
    requires OnFile(buffer, index, frames, stub)
    ensures forall i | 0 <= i < |index| :: index[i] + HEADER_SIZE <= |buffer|
  {
    hide Holds, HoldsAt, Offset, FrameSize, Flags;
    forall i | 0 <= i < |frames| ensures index[i] + HEADER_SIZE <= |buffer| {
      FrameAt(buffer, frames, i);
    }
  }

  lemma OpenedSynced(v: View)
    requires WellFormed(v) && v.w.index <= |v.index|
    ensures SyncedTo(v, v.w, |v.frames|)
  {
    hide Holds, Flags, FrameSize;
  }

  /** A segment that was just created. */
  function Created(size: nat): View {
    View(seq(size, _ => 0), seq(Capacity(size), _ => 0), Position(0, 0), [], false, false)
  }

  lemma CreatedOnFile(size: nat)
    requires HEADER_SIZE <= size < WORD
    ensures OnFile(Created(size).buffer, Created(size).index, [], false) && WellFormed(Created(size))
    ensures Reopened(Created(size).buffer, Created(size).index, [], false) == Created(size)
  {
  }

  lemma OnFileBounds(buffer: seq<byte>, index: seq<nat>, frames: seq<Payload>, stub: bool)
    requires OnFile(buffer, index, frames, stub)
    ensures HEADER_SIZE <= |buffer| < WORD
  {
  }

  lemma EndSynced(v: View)
    requires WellFormed(v)
    ensures v.w.data == Offset(v.frames, |v.frames|) || v.eos
    ensures v.w.index == |v.frames| + if v.stub then 1 else 0
  {
  }
}
