/**
  How many index entries a segment has against how many frames its buffer takes. The size of the
  index in bytes is a count of headers (src/segment.c:224-227), so short payloads use up the index
  before the buffer. Both questions, whether a write that fits has an index slot, and whether a slot
  is left for recovery, have an exact answer in the size of the segment and the least payload length.
*/
module SegmentRoom {
  import opened Prot
  import opened SegmentLayout
  import Disk = SegmentDisk

  ghost predicate AtLeast(frames: seq<Payload>, n: nat) {
    forall j | 0 <= j < |frames| :: |frames[j]| >= n
  }

  lemma {:induction false} OffsetAtLeast(frames: seq<Payload>, n: nat, i: nat)
    requires i <= |frames| && AtLeast(frames, n)
    ensures Offset(frames, i) >= i * (HEADER_SIZE + n)
  {
    if i > 0 {
      OffsetAtLeast(frames, n, i - 1);
      assert i * (HEADER_SIZE + n) == (i - 1) * (HEADER_SIZE + n) + (HEADER_SIZE + n);
    }
  }

  lemma ProductGrows(i: nat, j: nat, k: nat)
    requires i <= j
    ensures i * k <= j * k
  {
  }

  /** A segment of `size` bytes with payloads of at least `n` bytes that has not ended takes one of `m` bytes. */
  ghost predicate Takes(v: View, size: nat, n: nat, m: nat) {
    WellFormed(v) && |v.buffer| == size && AtLeast(v.frames, n) && m >= n && !MarkedEos(v) && Fits(v, m)
  }

  /** Payloads of at least `n` bytes never run out of index slots: whatever fits has one. */
  ghost predicate WritesHaveSlots(size: nat, n: nat) {
    forall v: View, m: nat | Takes(v, size, n, m) :: v.w.index < |v.index|
  }

  predicate CoversWrites(size: nat, n: nat) {
    Capacity(size) * (HEADER_SIZE + n) + n + 2 * HEADER_SIZE > size
  }

  lemma WriteHasSlot(v: View, size: nat, n: nat, m: nat)
    requires CoversWrites(size, n) && Takes(v, size, n, m)
    ensures v.w.index < |v.index|
  {
    hide Holds, Indexed, Flags, FrameSize, Offset;
    FramesBound(v, n);
    if |v.frames| >= |v.index| {
      ProductGrows(|v.index|, |v.frames|, HEADER_SIZE + n);
    }
    EosKeeps(v);
  }

  lemma FramesBound(v: View, n: nat)
    requires WellFormed(v) && AtLeast(v.frames, n)
    ensures |v.frames| * (HEADER_SIZE + n) <= End(v.frames) <= v.w.data
    ensures v.frames != [] ==> End(v.frames) + HEADER_SIZE <= |v.buffer|
    ensures v.w.index == |v.frames| + (if v.stub then 1 else 0) && (v.stub ==> v.frames == [])
    ensures |v.index| == Capacity(|v.buffer|)
  {
    hide Holds, Indexed, Flags, FrameSize;
    OffsetAtLeast(v.frames, n, |v.frames|);
  }

  // A segment filled with payloads of one length.

  function Zeros(n: nat): Payload {
    seq(n, _ => 0)
  }

  /** `v` is a segment that has taken `k` payloads of `n` zeros, and could take more. */
  ghost predicate FilledWith(v: View, size: nat, n: nat, k: nat) {
    && WellFormed(v) && |v.buffer| == size && !v.eos && !v.stub && !MarkedEos(v)
    && v.frames == seq(k, _ => Zeros(n)) && v.w == Position(k, k * (HEADER_SIZE + n))
  }

  /** Writes of `n` zeros to a new segment, as long as they fit and the index has slots. */
  lemma {:induction false} Fill(size: nat, n: nat, k: nat) returns (v: View)
    requires HEADER_SIZE <= size < WORD && n >= HEADER_SIZE
    requires k <= Capacity(size) && k * (HEADER_SIZE + n) + HEADER_SIZE <= size
    ensures FilledWith(v, size, n, k)
  {
    hide Holds, Indexed, Flags, FrameSize, PutFrame;
    if k == 0 {
      CreatedOnFile(size);
      v := Created(size);
      NoFrames(v);
    } else {
      assert k * (HEADER_SIZE + n) == (k - 1) * (HEADER_SIZE + n) + (HEADER_SIZE + n);
      var u := Fill(size, n, k - 1);
      WriteKeeps(u, Zeros(n));
      v := AfterWrite(u, Zeros(n));
      ZerosAreNoMarker(u, n);
    }
  }

  lemma NoFrames(v: View)
    requires v.w.data == 0
    ensures !MarkedEos(v)
  {
  }

  /** The last twelve bytes of the payload are not an end marker. */
  lemma ZerosAreNoMarker(v: View, n: nat)
    requires WellFormed(v) && Fits(v, n) && v.w.index < |v.index| && n >= HEADER_SIZE
    ensures !MarkedEos(AfterWrite(v, Zeros(n)))
  {
    hide Holds, Indexed, PutFrame;
    var p, at := Zeros(n), v.w.data;
    var after := PutFrame(v.buffer, at, p);
    PutFrameHolds(v.buffer, at, p);
    FrameReads(after, at, p);
    assert after[at + n] == p[n - HEADER_SIZE] && after[at + n + 1] == p[n - HEADER_SIZE + 1];
  }

  lemma FilledAtLeast(v: View, size: nat, m: nat, k: nat, n: nat)
    requires FilledWith(v, size, m, k) && n <= m
    ensures AtLeast(v.frames, n) && v.w.index == k && |v.index| == Capacity(size) && |v.frames| == k
  {
    hide Holds, Indexed, Flags, FrameSize;
  }

  /** The length of the payloads of a witness: long enough for the end of one not to look like a marker. */
  function Long(n: nat): nat {
    if n < HEADER_SIZE then HEADER_SIZE else n
  }

  /** When the buffer takes more frames of `n` bytes than the index has slots, so it does with `Long(n)`. */
  lemma LongFits(size: nat, n: nat, rest: nat)
    requires Capacity(size) * (HEADER_SIZE + n) + rest <= size
    requires HEADER_SIZE <= rest <= size && (n < HEADER_SIZE ==> rest <= n + 2 * HEADER_SIZE)
    ensures Capacity(size) * (HEADER_SIZE + Long(n)) + rest <= size
  {
    var k := Capacity(size);
    if n < HEADER_SIZE {
      assert k * (HEADER_SIZE + Long(n)) == 24 * k;
    }
  }

  /** Whether every write that fits has an index slot: exactly when the index covers the buffer. */
  lemma WritesHaveSlotsExactly(size: nat, n: nat)
    requires HEADER_SIZE <= size < WORD
    ensures WritesHaveSlots(size, n) <==> CoversWrites(size, n)
  {
    if CoversWrites(size, n) {
      forall v: View, m: nat | Takes(v, size, n, m) ensures v.w.index < |v.index| {
        WriteHasSlot(v, size, n, m);
      }
    } else {
      var v := FilledUp(size, n, n + 2 * HEADER_SIZE);
      assert Takes(v, size, n, n);
    }
  }

  /** A segment with payloads of at least `n` bytes whose index is full, though `rest` bytes are left. */
  lemma FilledUp(size: nat, n: nat, rest: nat) returns (v: View)
    requires HEADER_SIZE <= size < WORD && Capacity(size) * (HEADER_SIZE + n) + rest <= size
    requires HEADER_SIZE <= rest <= n + 2 * HEADER_SIZE
    ensures WellFormed(v) && |v.buffer| == size && AtLeast(v.frames, n) && !MarkedEos(v) && !v.eos && !v.stub
    ensures v.w.index == |v.index| == |v.frames| && rest <= size - v.w.data
  {
    hide WellFormed, MarkedEos;
    LongFits(size, n, rest);
    v := Fill(size, Long(n), Capacity(size));
    FilledAtLeast(v, size, Long(n), Capacity(size), n);
  }

  // Recovery needs a slot beyond the frames.

  /** Whatever a segment of `size` bytes holds, in payloads of at least `n` bytes, its index has a slot left. */
  ghost predicate SlotsStayFree(size: nat, n: nat) {
    forall v: View | WellFormed(v) && |v.buffer| == size && !v.stub && AtLeast(v.frames, n) :: v.w.index < |v.index|
  }

  predicate CoversRecovery(size: nat, n: nat) {
    Capacity(size) * (HEADER_SIZE + n) + HEADER_SIZE > size
  }

  lemma SlotStaysFree(v: View, n: nat)
    requires WellFormed(v) && CoversRecovery(|v.buffer|, n) && !v.stub && AtLeast(v.frames, n)
    ensures v.w.index < |v.index|
  {
    hide Holds, Indexed, Flags, FrameSize, Offset;
    FramesBound(v, n);
    if |v.frames| >= |v.index| {
      ProductGrows(|v.index|, |v.frames|, HEADER_SIZE + n);
    }
  }

  lemma SlotsStayFreeExactly(size: nat, n: nat)
    requires HEADER_SIZE <= size < WORD
    ensures SlotsStayFree(size, n) <==> CoversRecovery(size, n)
  {
    if CoversRecovery(size, n) {
      forall v: View | WellFormed(v) && |v.buffer| == size && !v.stub && AtLeast(v.frames, n)
        ensures v.w.index < |v.index|
      {
        SlotStaysFree(v, n);
      }
    } else {
      var v := FilledUp(size, n, HEADER_SIZE);
    }
  }

  /** A segment whose index is full is lost: recovery fails on its files. */
  lemma FullIsLost(v: View, r: Option<Position>)
    requires WellFormed(v) && v.frames != [] && v.w.index == |v.index|
    requires Recovers(v.buffer, v.index, r)
    ensures r == None
  {
    hide WellFormed, Recovers, OnFile;
    CloseLeaves(v);
    RecoversFile(v.buffer, v.index, v.frames, false, r);
    NotStub(v);
  }

  lemma NotStub(v: View)
    requires WellFormed(v) && v.frames != []
    ensures v.w.index == |v.frames| == Reopened(v.buffer, v.index, v.frames, false).w.index
  {
  }

  // The lengths that matter.

  /** Payloads of at least 84 bytes have slots in a segment of any size. */
  lemma EightyFour(size: nat)
    ensures CoversWrites(size, 84)
  {
  }

  /** Payloads of at least 86 bytes leave a slot in any segment of a page or more. */
  lemma EightySix(size: nat)
    requires size >= 4096
    ensures CoversRecovery(size, 86)
  {
  }

  /** In a page, payloads of one byte run out of slots, and payloads of 84 bytes leave none for recovery. */
  lemma PageOverruns()
    ensures !WritesHaveSlots(4096, 1) && WritesHaveSlots(4096, 83) && !WritesHaveSlots(4096, 82)
    ensures !SlotsStayFree(4096, 84) && !SlotsStayFree(4096, 85)
  {
    WritesHaveSlotsExactly(4096, 1);
    WritesHaveSlotsExactly(4096, 82);
    WritesHaveSlotsExactly(4096, 83);
    SlotsStayFreeExactly(4096, 84);
    SlotsStayFreeExactly(4096, 85);
  }

  /** Such a segment: 42 payloads of 84 bytes, which were all taken, and recovery gives nothing back. */
  lemma EightyFourIsLost() returns (v: View)
    ensures FilledWith(v, 4096, 84, 42) && forall r | Recovers(v.buffer, v.index, r) :: r == None
  {
    hide WellFormed, Recovers;
    v := Fill(4096, 84, 42);
    FilledAtLeast(v, 4096, 84, 42, 84);
    forall r | Recovers(v.buffer, v.index, r) ensures r == None {
      FullIsLost(v, r);
    }
  }

  // A payload that looks like an end marker.

  /**
    A segment that has not ended is taken for ended if and only if the twelve bytes at the end of its last
    frame, which may be payload or checksum, begin with the flags of an end marker.
  */
  lemma MarkedByFrame(v: View)
    requires WellFormed(v) && !v.eos && v.frames != []
    ensures
      var p := v.frames[|v.frames| - 1];
      FrameLength(p) < WORD && v.w.data <= |v.buffer| && (MarkedEos(v) <==> U16(Frame(p), |p|) == FLAGS_EOS)
  {
    hide Holds, Indexed, Frame, FrameSize;
    var n := |v.frames| - 1;
    var p, at := v.frames[n], Offset(v.frames, n);
    LastFrame(v.buffer, v.frames);
  }

  lemma LastFrame(buffer: seq<byte>, frames: seq<Payload>)
    requires Holds(buffer, frames) && frames != []
    ensures
      var n := |frames| - 1;
      var at, p := Offset(frames, n), frames[n];
      && at + FrameLength(p) == End(frames) <= |buffer| < WORD
      && buffer[at + |p|] == Frame(p)[|p|] && buffer[at + |p| + 1] == Frame(p)[|p| + 1]
  {
    hide HoldsAt, Frame;
    var n := |frames| - 1;
    assert HoldsAt(buffer, Offset(frames, n), frames[n]);
    HeldBytes(buffer, Offset(frames, n), frames[n]);
  }

  lemma HeldBytes(buffer: seq<byte>, at: nat, p: Payload)
    requires HoldsAt(buffer, at, p)
    ensures at + FrameLength(p) <= |buffer| < WORD
    ensures buffer[at + |p|] == Frame(p)[|p|] && buffer[at + |p| + 1] == Frame(p)[|p| + 1]
  {
    hide Frame;
    var s := buffer[at..at + FrameLength(p)];
    assert s[|p|] == buffer[at + |p|] && s[|p| + 1] == buffer[at + |p| + 1];
  }

  /** A page that took one payload of twelve bytes, has room for more, and is taken for ended. */
  lemma LooksEnded() returns (v: View)
    ensures WellFormed(v) && |v.buffer| == 4096 && !v.eos && !v.stub
    ensures MarkedEos(v) && Fits(v, 1) && v.frames == [[0xaa, 0xaa] + Zeros(10)]
  {
    hide WellFormed, PutFrame, Frame;
    var u, p := Created(4096), [0xaa, 0xaa] + Zeros(10);
    CreatedOnFile(4096);
    NoFrames(u);
    WriteKeeps(u, p);
    v := AfterWrite(u, p);
    MarkedByFrame(v);
    FrameBytes(p);
  }

  lemma FrameBytes(p: Payload)
    requires FrameLength(p) < WORD && |p| == HEADER_SIZE && p[0] == p[1] == 0xaa
    ensures U16(Frame(p), |p|) == FLAGS_EOS
  {
  }

  /** A segment with 2^31 bytes in one frame, all of them to be flushed: its sync is reported as a failure. */
  lemma TwoGigabytes(page: nat) returns (v: View)
    requires page > 0
    ensures FilledWith(v, 0xffff_f000, 0x7fff_fff4, 1) && v.w.data == 0x8000_0000
    ensures !Disk.SyncCompletes(0, v.w.data, page, true)
  {
    hide WellFormed, MarkedEos;
    v := Fill(0xffff_f000, 0x7fff_fff4, 1);
  }

  /**
    Two frames to the end of a page, synced with a failing msync of the index. The next sync reports
    success and changes nothing, and after the loss of power one of the two is found.
  */
  lemma IndexLeftBehind() returns (v: View, m: Disk.Mark, d: Disk.Image)
    ensures FilledWith(v, 8192, 2036, 2) && v.w.data == 4096 && Disk.Sound(v, m, d)
    ensures
      var zero := Disk.Mark(Position(0, 0), 0);
      && m == Disk.MarkAfterSync(v, zero, 4096, true, false, Disk.Zeroed(8192))
      && d == Disk.AfterSync(v, zero, 4096, true, false, Disk.Zeroed(8192))
    ensures SyncedTo(v, m.s, m.synced) && m.synced == 2 && Disk.SyncCompletes(m.s.data, v.w.data, 4096, true)
    ensures Disk.MarkAfterSync(v, m, 4096, true, true, d) == m && |Disk.Kept(v, m)| == 1
  {
    hide WellFormed, MarkedEos, Disk.Sound, SyncedTo, Disk.Flushed, Disk.Zeroed;
    v := Fill(8192, 2036, 2);
    var zero := Disk.Mark(Position(0, 0), 0);
    Disk.ZeroedSound(v);
    Disk.SyncKeepsSound(v, zero, 4096, true, false, Disk.Zeroed(8192));
    Disk.SyncKeepsSynced(v, zero, 4096, true, false, Disk.Zeroed(8192));
    TwoFrames(v);
    m := Disk.MarkAfterSync(v, zero, 4096, true, false, Disk.Zeroed(8192));
    d := Disk.AfterSync(v, zero, 4096, true, false, Disk.Zeroed(8192));
  }

  lemma TwoFrames(v: View)
    requires FilledWith(v, 8192, 2036, 2)
    ensures |v.frames| == 2 && v.w == Position(2, 4096) && |v.index| >= 2
    ensures Disk.SameSize(v, Disk.Zeroed(8192))
  {
    hide Holds, MarkedEos;
  }
}
