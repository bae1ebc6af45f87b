/**
  A segment of src/segment.c: a mapped data file and its mapped index, written by claiming a place
  and then storing payload, header and index entry, read without a lock, and reopened by a scan.
*/
module Segment {
  import opened Prot
  import opened Crc32
  import opened SegmentDisk
  import opened SegmentLayout

  datatype WriteResult = Written(size: nat) | ELEOS | ELLOCK

  /** A read hands out the place and the length of a payload; nothing is copied. */
  datatype ReadResult = Payload(at: nat, length: nat) | ELNORD | EndOfSegment | ELINVHD

  /** The number of index entries flushed, or a failure of msync, or the narrowed number of bytes of data. */
  datatype SyncResult = Done(count: nat) | ELDTSYN | Negative(code: int)

  /** What a sync returns that goes from one mark to another, with the end of the data at `end`. */
  predicate Answers(r: SyncResult, before: Position, after: Position, end: nat, page: nat, dataOk: bool, indexOk: bool)
    requires page > 0
  {
    var flush := end - before.data + before.data % page;
    if !dataOk || (0 < flush < 0x8000_0000 && !indexOk) then r == ELDTSYN
    else if flush >= 0x8000_0000 then r == Negative(flush - 0x1_0000_0000)
    else r.Done? && r.count == after.index - before.index
  }

  /** memcpy. */
  method StoreBytes(a: array<byte>, at: nat, s: seq<byte>)
    requires at + |s| <= a.Length
    modifies a
    ensures a[..] == Stored(old(a[..]), at, s)
  {
    forall i | 0 <= i < |s| {
      a[at + i] := s[i];
    }
  }

  /** The write position from the index: the first free slot, past the frame before it. */
  method FindWOffsetPair(buffer: array<byte>, index: array<nat>) returns (r: Option<Position>)
    requires buffer.Length >= HEADER_SIZE
    requires forall i | 0 <= i < index.Length :: index[i] + HEADER_SIZE <= buffer.Length
    ensures Recovers(buffer[..], index[..], r)
  {
    hide Flags, FrameSize;
    var prev, i := 0, 0;
    while i < index.Length
      invariant 0 <= i <= index.Length
      invariant prev == if i == 0 then 0 else index[i - 1]
      invariant forall j | 0 <= j < i :: !StopsAt(buffer[..], index[..], j)
    {
      if index[i] == 0 {
        if !(i == 0 && IsHeader(buffer[..], 0)) {
          var offset := 0;
          if i != 0 {
            offset := FrameSize(buffer[..], prev);
          }
          assert StopsAt(buffer[..], index[..], i);
          return Some(Position(i, prev + offset));
        }
      }
      prev := index[i];
      i := i + 1;
    }
    return None;
  }

  class Segment {
    const base: nat
    const committed: bool
    const buffer: array<byte>
    const index: array<nat>
    var w: Position
    var s: Position
    ghost var frames: seq<Payload>
    ghost var eos: bool
    ghost var stub: bool
    // How many frames are below the sync mark.
    ghost var synced: nat

    constructor (buffer: array<byte>, index: array<nat>, base: nat, committed: bool, w: Position,
                 ghost frames: seq<Payload>, ghost stub: bool)
      ensures this.buffer == buffer && this.index == index && this.base == base && this.committed == committed
      ensures this.w == w && s == w
      ensures ViewOf() == View(buffer[..], index[..], w, frames, stub, stub)
      ensures synced == |frames|
    {
      this.buffer, this.index, this.base, this.committed := buffer, index, base, committed;
      this.w, s := w, w;
      this.frames, eos, this.stub := frames, stub, stub;
      synced := |frames|;
    }

    ghost function ViewOf(): View
      reads this, buffer, index
    {
      View(buffer[..], index[..], w, frames, eos, stub)
    }

    ghost predicate Valid()
      reads this, buffer, index
    {
      WellFormed(ViewOf()) && SyncedTo(ViewOf(), s, synced)
    }

    ghost function MarkOf(): Mark
      reads this
    {
      Mark(s, synced)
    }

    /** segment_write_offset. */
    function WriteOffset(): nat
      reads this
    {
      base + w.index
    }

    predicate MarkedEos()
      requires w.data <= buffer.Length
      reads this, buffer
    {
      w.data >= HEADER_SIZE && Flags(buffer[..], w.data - HEADER_SIZE) == FLAGS_EOS
    }

    /** The compare-and-swap on the write position. */
    method Claim(curr: Position, next: Position) returns (ok: bool)
      modifies this`w
      ensures ok <==> old(w) == curr
      ensures w == if ok then next else old(w)
    {
      ok := w == curr;
      if ok {
        w := next;
      }
    }

    method HeaderInit(at: nat)
      requires at + HEADER_SIZE <= buffer.Length
      modifies buffer
      ensures buffer[..] == Stored(old(buffer[..]), at, Le16(FLAGS_EMPTY) + [0, 0])
      ensures forall i | 0 <= i < buffer.Length ::
                buffer[i] == if at <= i < at + 4 then 0 else old(buffer[i])
    {
      StoreBytes(buffer, at, Le16(FLAGS_EMPTY) + [0, 0]);
    }

    method MarkEos(curr: Position) returns (r: WriteResult)
      requires curr.data + HEADER_SIZE <= buffer.Length
      modifies this`w, buffer
      ensures old(w) == curr ==> r == ELEOS && w == Position(curr.index, curr.data + HEADER_SIZE)
                                 && buffer[..] == PutEos(old(buffer[..]), curr.data)
                                 && IsMarker(buffer[..], curr.data)
      ensures old(w) != curr ==> r == ELLOCK && w == old(w) && buffer[..] == old(buffer[..])
    {
      hide Stored, IsMarker;
      PutEosHolds(buffer[..], curr.data);
      var ok := Claim(curr, Position(curr.index, curr.data + HEADER_SIZE));
      if !ok {
        return ELLOCK;
      }
      HeaderInit(curr.data);
      StoreBytes(buffer, curr.data + 4, Le32(HEADER_SIZE));
      StoreBytes(buffer, curr.data, Le16(FLAGS_EOS));
      return ELEOS;
    }

    /** The stores of a claimed frame. */
    method Publish(curr: Position, buf: Payload)
      requires curr.data + FrameLength(buf) <= buffer.Length < WORD && curr.index < index.Length
      modifies buffer, index
      ensures buffer[..] == PutFrame(old(buffer[..]), curr.data, buf) && IsFrame(buffer[..], curr.data, buf)
      ensures index[..] == old(index[..])[curr.index := curr.data]
    {
      hide Stored, Checksum, Le16, Le32, IsFrame;
      PutFrameHolds(buffer[..], curr.data, buf);
      var at := curr.data;
      ghost var b0 := buffer[..];
      ghost var b1 := Stored(b0, at + HEADER_SIZE, buf);
      ghost var b2 := Stored(b1, at, Le16(FLAGS_EMPTY) + [0, 0]);
      ghost var b3 := Stored(b2, at + 8, Le32(Crc(buf)));
      ghost var b4 := Stored(b3, at + 4, Le32(FrameLength(buf)));
      StoreBytes(buffer, at + HEADER_SIZE, buf);
      HeaderInit(at);
      var crc := Crc32.Crc32(0, buf);
      StoreBytes(buffer, at + 8, Le32(crc as int));
      StoreBytes(buffer, at + 4, Le32(HEADER_SIZE + |buf|));
      StoreBytes(buffer, at, Le16(FLAGS_READY));
      index[curr.index] := at;
    }

    /**
      A write either adds one frame, or ends the segment, or finds it ended; it never touches an
      earlier frame. The index must have a slot for a frame that is to be stored.
    */
    method Write(buf: Payload) returns (r: WriteResult)
      requires Valid()
      requires !MarkedEos() && Fits(ViewOf(), |buf|) ==> w.index < index.Length
      modifies if MarkedEos() then {} else {this, buffer, index}
      ensures Valid() && MarkOf() == old(MarkOf())
      ensures old(!MarkedEos()) ==> old(w.data) + HEADER_SIZE <= buffer.Length && !old(eos)
      ensures old(MarkedEos()) ==> r == ELEOS && ViewOf() == old(ViewOf())
      ensures old(!MarkedEos() && !Fits(ViewOf(), |buf|)) ==> r == ELEOS && ViewOf() == AfterEos(old(ViewOf()))
      ensures old(!MarkedEos() && Fits(ViewOf(), |buf|)) ==>
                r == Written(|buf|) && ViewOf() == AfterWrite(old(ViewOf()), buf)
      ensures r.Written? ==>
                && old(w.data) + 12 + |buf| + 12 <= buffer.Length
                && w == Position(old(w.index) + 1, old(w.data) + 12 + |buf|)
                && IsFrame(buffer[..], old(w.data), buf) && buffer[..old(w.data)] == old(buffer[..w.data])
                && index[..] == old(index[..])[old(w.index) := old(w.data)]
      ensures old(!MarkedEos()) && r == ELEOS ==>
                && old(w.data) + 12 + |buf| + 12 > buffer.Length && w == Position(old(w.index), old(w.data) + 12)
                && IsMarker(buffer[..], old(w.data)) && buffer[..old(w.data)] == old(buffer[..w.data])
                && index[..] == old(index[..])
    {
      hide PutFrame, PutEos, WellFormed, SyncedTo, Flags, Offset, IsFrame, IsMarker;
      ghost var v := ViewOf();
      InBounds(v);
      if MarkedEos() {
        return ELEOS;
      }
      EosKeeps(v);
      PutEosHolds(buffer[..], w.data);
      var curr := w;
      var frameSize := HEADER_SIZE + |buf|;
      if HEADER_SIZE + frameSize > buffer.Length - curr.data {
        EosKeepsSynced(v, s, synced);
        r := MarkEos(curr);
        eos := true;
        return;
      }
      PutFrameHolds(buffer[..], w.data, buf);
      WriteKeeps(v, buf);
      WriteKeepsSynced(v, buf, s, synced);
      var ok := Claim(curr, Position(curr.index + 1, curr.data + frameSize));
      if !ok {
        return ELLOCK;
      }
      Publish(curr, buf);
      frames := frames + [buf];
      return Written(|buf|);
    }

    /** A read without a lock: the offset, then the place, then the flags, then the size. */
    method Read(relative: nat) returns (r: ReadResult)
      requires Valid()
      ensures relative >= |frames| ==> r == if stub && relative == 0 then EndOfSegment else ELNORD
      ensures relative < |frames| && !committed ==> Returns(r, relative)
      ensures relative < |frames| && committed ==> if relative < synced then Returns(r, relative) else r == ELNORD
    {
      hide WellFormed, Flags, FrameSize, Offset;
      ghost var v := ViewOf();
      InBounds(v);
      if relative < |frames| {
        ReadsFrame(v, relative);
        SyncedBoundary(v, s, synced, relative);
      } else {
        ReadsPast(v, relative);
      }
      var boundary := w.data;
      if committed {
        boundary := s.data;
      }
      if relative >= w.index {
        return ELNORD;
      }
      var at := index[relative];
      if relative != 0 && at == 0 {
        return ELNORD;
      }
      if at >= boundary {
        return ELNORD;
      }
      var flags := Flags(buffer[..], at);
      if flags == FLAGS_READY {
        return Payload(at + HEADER_SIZE, FrameSize(buffer[..], at) - HEADER_SIZE);
      } else if flags == FLAGS_EOS {
        return EndOfSegment;
      } else {
        return ELINVHD;
      }
    }

    /** What is handed out is the complete payload of frame `i`. */
    ghost predicate Returns(r: ReadResult, i: nat)
      requires i < |frames|
      reads this, buffer
    {
      r.Payload? && r.at + r.length <= buffer.Length && r.length == |frames[i]|
      && buffer[r.at..r.at + r.length] == frames[i]
    }

    /** msync of the data from the page of the mark on; the number of bytes comes back as an int. */
    method SyncData(page: nat, ok: bool, ghost disk: seq<byte>) returns (bytes: Option<int>, ghost after: seq<byte>)
      requires page > 0 && s.data <= w.data <= buffer.Length == |disk|
      modifies this`s, this`synced
      ensures !ok ==> bytes == None && s == old(s) && synced == old(synced) && after == disk
      ensures ok ==> s == Position(old(s.index), w.data) && synced == |frames|
      ensures ok ==> after == Flushed(disk, buffer[..], old(s.data) - PageDiff(old(s.data), page), w.data)
      ensures ok ==> bytes == Some(ToInt(w.data - old(s.data) + PageDiff(old(s.data), page)))
    {
      hide PageDiff, Flushed, ToInt;
      var to := w.data;
      var size := to - s.data;
      var diff := PageDiff(s.data, page);
      var addr, syncSize := s.data - diff, size + diff;
      if !ok {
        return None, disk;
      }
      after := Flushed(disk, buffer[..], addr, addr + syncSize);
      s := s.(data := to);
      synced := |frames|;
      bytes := Some(ToInt(syncSize));
    }

    /** msync of the index from the page of the mark on; the number of entries comes back. */
    method SyncIndex(page: nat, ok: bool, ghost disk: seq<nat>) returns (entries: Option<nat>, ghost after: seq<nat>)
      requires page > 0 && page % 8 == 0 && s.index <= w.index <= index.Length == |disk|
      modifies this`s
      ensures !ok ==> entries == None && s == old(s) && after == disk
      ensures ok ==> s == Position(w.index, old(s.data)) && entries == Some(w.index - old(s.index))
      ensures ok ==> 0 <= old(s.index) - PageDiff(8 * old(s.index), page) / 8 <= w.index
      ensures ok ==> after == Flushed(disk, index[..], old(s.index) - PageDiff(8 * old(s.index), page) / 8, w.index)
    {
      hide PageDiff, Flushed;
      var to := w.index;
      var length := to - s.index;
      InEntries(s.index, page);
      var diff := PageDiff(8 * s.index, page);
      var addr, syncSize := 8 * s.index - diff, 8 * length + diff;
      if !ok {
        return None, disk;
      }
      after := Flushed(disk, index[..], addr / 8, (addr + syncSize) / 8);
      s := s.(index := to);
      entries := Some(length);
    }

    /**
      msync of the data, then of the index; either may fail. Whole pages are flushed. The number of bytes
      is narrowed to an int, so that a flush of two gigabytes or more is taken for a failure although the
      data are durable, and the index is not flushed. The files on disk are `d` before, and `after`.
    */
    method Sync(page: nat, dataOk: bool, indexOk: bool, ghost d: Image) returns (r: SyncResult, ghost after: Image)
      requires Valid() && page > 0 && page % 8 == 0 && SameSize(ViewOf(), d)
      modifies this`s, this`synced
      ensures Valid()
      ensures r.Done? <==> dataOk && SyncCompletes(old(s.data), w.data, page, indexOk)
      ensures Answers(r, old(s), s, w.data, page, dataOk, indexOk)
      ensures MarkOf() == MarkAfterSync(ViewOf(), old(MarkOf()), page, dataOk, indexOk, d)
      ensures after == AfterSync(ViewOf(), old(MarkOf()), page, dataOk, indexOk, d)
    {
      hide WellFormed, Offset, PageDiff, Flushed, ToInt;
      InBounds(ViewOf());
      EndSynced(ViewOf());
      PageDiffIs(s.data, page);
      Narrowed(w.data - s.data + PageDiff(s.data, page));
      var bytes;
      ghost var data;
      bytes, data := SyncData(page, dataOk, d.data);
      after := d.(data := data);
      if bytes.None? {
        return ELDTSYN, after;
      }
      if bytes.value <= 0 {
        return if bytes.value < 0 then Negative(bytes.value) else Done(0), after;
      }
      var entries;
      ghost var index;
      entries, index := SyncIndex(page, indexOk, d.index);
      after := after.(index := index);
      if entries.None? {
        return ELDTSYN, after;
      }
      return Done(entries.value), after;
    }
  }

  /** segment_open on files that are already mapped; the scan of the index may fail. */
  method Open(buffer: array<byte>, index: array<nat>, base: nat, committed: bool,
              ghost frames: seq<Payload>, ghost stub: bool) returns (r: Option<Segment>)
    requires OnFile(buffer[..], index[..], frames, stub)
    ensures
      var v := Reopened(buffer[..], index[..], frames, stub);
      r.Some? <==> v.w.index < index.Length
    ensures r.Some? ==>
      var sgm := r.value;
      && fresh(sgm) && sgm.Valid() && sgm.base == base && sgm.committed == committed
      && sgm.buffer == buffer && sgm.index == index
      && sgm.ViewOf() == Reopened(buffer[..], index[..], frames, stub) && sgm.MarkOf() == Mark(sgm.w, |frames|)
  {
    hide OnFile, WellFormed, Recovers, SyncedTo;
    OnFileBounds(buffer[..], index[..], frames, stub);
    EntriesInBounds(buffer[..], index[..], frames, stub);
    var w := FindWOffsetPair(buffer, index);
    RecoversFile(buffer[..], index[..], frames, stub, w);
    if w.None? {
      return None;
    }
    OpenedSynced(Reopened(buffer[..], index[..], frames, stub));
    var sgm := new Segment(buffer, index, base, committed, w.value, frames, stub);
    return Some(sgm);
  }
}
