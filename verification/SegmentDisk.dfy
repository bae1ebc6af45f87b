/**
  What of a segment of src/segment.c is durable: the contents of its two files as msync has left them,
  beside the mapped memory. Opening a segment moves its sync mark without an msync, so that the mark says
  what is durable only for files that were flushed before.
*/
module SegmentDisk {
  import opened Prot
  import opened SegmentLayout

  /** The two files on disk. */
  datatype Image = Image(data: seq<byte>, index: seq<nat>)

  /** The sync mark of a segment and the number of frames below it. */
  datatype Mark = Mark(s: Position, synced: nat)

  /** Files that were just created. */
  function Zeroed(size: nat): Image {
    Image(seq(size, _ => 0), seq(Capacity(size), _ => 0))
  }

  predicate SameSize(v: View, d: Image) {
    |d.data| == |v.buffer| && |d.index| == |v.index|
  }

  /** All data below the sync mark are durable: what committed reads rely on. */
  predicate DataSafe(v: View, m: Mark, d: Image) {
    SameSize(v, d) && m.s.data <= |v.buffer| && d.data[..m.s.data] == v.buffer[..m.s.data]
  }

  /** The index is durable up to the mark, and has nothing after. */
  ghost predicate IndexSafe(v: View, m: Mark, d: Image) {
    && SameSize(v, d) && m.s.index <= |v.index| && d.index[..m.s.index] == v.index[..m.s.index]
    && forall i | m.s.index <= i < |d.index| :: d.index[i] == 0
  }

  /** No header is durable at the start of the data, but for that of an end marker alone. */
  ghost predicate StartSafe(v: View, m: Mark, d: Image) {
    && SameSize(v, d) && HEADER_SIZE <= |v.buffer|
    && (m.s.data == 0 && IsHeader(d.data, 0) ==>
          v.frames == [] && v.eos && d.data[..HEADER_SIZE] == v.buffer[..HEADER_SIZE])
  }

  /** The mark says what is durable. */
  ghost predicate Sound(v: View, m: Mark, d: Image) {
    DataSafe(v, m, d) && IndexSafe(v, m, d) && StartSafe(v, m, d)
  }

  /** What is asked of the disk: the data that committed reads rely on, or all that the mark says. */
  ghost predicate Agrees(v: View, m: Mark, d: Image, whole: bool) {
    if whole then Sound(v, m, d) else DataSafe(v, m, d)
  }

  // What a sync does.

  /** What msync of the range from `from` to `to` makes durable. */
  function Flushed<T>(disk: seq<T>, memory: seq<T>, from: nat, to: nat): (after: seq<T>)
    requires from <= to <= |memory| == |disk|
    ensures |after| == |disk|
  {
    disk[..from] + memory[from..to] + disk[to..]
  }

  /** A flushed range is durable as a whole if and only if what comes before it was already. */
  lemma FlushCovers<T>(disk: seq<T>, memory: seq<T>, from: nat, to: nat)
    requires from <= to <= |memory| == |disk|
    ensures Flushed(disk, memory, from, to)[..to] == memory[..to] <==> disk[..from] == memory[..from]
  {
    var after := Flushed(disk, memory, from, to);
    assert after[..to] == disk[..from] + memory[from..to];
    assert memory[..to] == memory[..from] + memory[from..to];
    assert after[..to][..from] == disk[..from] && memory[..to][..from] == memory[..from];
  }

  /** How far an address lies past the start of its page. */
  function PageDiff(address: nat, page: nat): (d: nat)
    requires page > 0
    ensures d <= address
  {
    DivModLaw(address, page);
    address % page
  }

  lemma DivModLaw(a: nat, b: nat)
    requires b > 0
    ensures a % b <= a
  {
    if a < b {
      assert a % b == a;
    } else {
      assert a % b < b;
    }
  }

  /** The conversion of an unsigned count to a 32-bit int. */
  function ToInt(n: nat): (i: int)
    ensures n < 0x8000_0000 ==> i == n
    ensures 0x8000_0000 <= n < WORD ==> i < 0
  {
    if n % WORD < 0x8000_0000 then n % WORD else n % WORD - WORD
  }

  lemma Narrowed(n: nat)
    requires n < WORD
    ensures ToInt(n) == if n < 0x8000_0000 then n else n - 0x1_0000_0000
  {
  }

  lemma PageDiffIs(address: nat, page: nat)
    requires page > 0
    ensures PageDiff(address, page) == address % page
  {
  }

  /** The bytes of data that a sync flushes: whole pages from the mark on. */
  function FlushLength(from: nat, to: nat, page: nat): nat
    requires page > 0 && from <= to
  {
    to - from + PageDiff(from, page)
  }

  /** With its data flushed, whether a sync from one mark to another reports success. */
  predicate SyncCompletes(from: nat, to: nat, page: nat, indexOk: bool)
    requires page > 0
  {
    from <= to && FlushLength(from, to, page) < 0x8000_0000 && (FlushLength(from, to, page) == 0 || indexOk)
  }

  /** Whether a sync comes to flush the index: not when its data are nothing, nor when they are too much. */
  predicate ReachesIndex(from: nat, to: nat, page: nat)
    requires page > 0 && from <= to
  {
    0 < FlushLength(from, to, page) < 0x8000_0000
  }

  /** A sync goes from the mark of a segment to its end. */
  predicate Syncable(v: View, m: Mark, page: nat, d: Image) {
    page > 0 && SameSize(v, d) && m.s.data <= v.w.data <= |v.buffer| && m.s.index <= v.w.index <= |v.index|
  }

  function MarkAfterSync(v: View, m: Mark, page: nat, dataOk: bool, indexOk: bool, d: Image): Mark {
    if !Syncable(v, m, page, d) || !dataOk then m
    else Mark(Position(if ReachesIndex(m.s.data, v.w.data, page) && indexOk then v.w.index else m.s.index, v.w.data),
              |v.frames|)
  }

  function AfterSync(v: View, m: Mark, page: nat, dataOk: bool, indexOk: bool, d: Image): Image {
    if !Syncable(v, m, page, d) || !dataOk then d
    else Image(Flushed(d.data, v.buffer, m.s.data - PageDiff(m.s.data, page), v.w.data),
               if ReachesIndex(m.s.data, v.w.data, page) && indexOk
               then Flushed(d.index, v.index, m.s.index - PageDiff(8 * m.s.index, page) / 8, v.w.index)
               else d.index)
  }

  lemma PageStart(address: nat, page: nat)
    requires page > 0
    ensures address - PageDiff(address, page) == address / page * page
  {
    assert address == page * (address / page) + address % page;
  }

  /** What msync of the data leaves of the data on disk: whole pages from that of the old mark on, up to the end. */
  predicate DataFlushed(disk: seq<byte>, memory: seq<byte>, from: nat, to: nat, page: nat, after: seq<byte>)
    requires page > 0
  {
    var start := from / page * page;
    start <= to <= |memory| == |disk| && after == disk[..start] + memory[start..to] + disk[to..]
  }

  /** The same of the index, whose entries have eight bytes each. */
  predicate IndexFlushed(disk: seq<nat>, memory: seq<nat>, from: nat, to: nat, page: nat, after: seq<nat>)
    requires page > 0
  {
    var start := 8 * from / page * page / 8;
    0 <= start <= to <= |memory| == |disk| && after == disk[..start] + memory[start..to] + disk[to..]
  }

  /**
    What a sync does to its mark and to the disk: the data when their msync succeeds, and then the index when
    its own does, if there were bytes of data to flush, and fewer than 2^31.
  */
  lemma SyncFlushesPages(v: View, m: Mark, page: nat, dataOk: bool, indexOk: bool, d: Image)
    requires Syncable(v, m, page, d) && page % 8 == 0
    ensures
      var (mark, after) := (MarkAfterSync(v, m, page, dataOk, indexOk, d), AfterSync(v, m, page, dataOk, indexOk, d));
      var flush := v.w.data - m.s.data + m.s.data % page;
      if !dataOk then mark == m && after == d
      else
        && mark.s.data == v.w.data && mark.synced == |v.frames|
        && DataFlushed(d.data, v.buffer, m.s.data, v.w.data, page, after.data)
        && if indexOk && 0 < flush < 0x8000_0000
           then mark.s.index == v.w.index && IndexFlushed(d.index, v.index, m.s.index, v.w.index, page, after.index)
           else mark.s.index == m.s.index && after.index == d.index
  {
    PageStart(m.s.data, page);
    PageStart(8 * m.s.index, page);
    InEntries(m.s.index, page);
  }

  /** A page of the index begins with an entry. */
  lemma InEntries(i: nat, page: nat)
    requires page > 0 && page % 8 == 0
    ensures PageDiff(8 * i, page) % 8 == 0
    ensures i - PageDiff(8 * i, page) / 8 == 8 * i / page * page / 8
  {
    var n, q := page / 8, 8 * i / page;
    PageStart(8 * i, page);
    assert page == 8 * n;
    assert q * page == 8 * (q * n);
  }

  lemma AfterSyncSize(v: View, m: Mark, page: nat, dataOk: bool, indexOk: bool, d: Image)
    requires SameSize(v, d)
    ensures SameSize(v, AfterSync(v, m, page, dataOk, indexOk, d))
  {
  }

  lemma SyncKeepsSynced(v: View, m: Mark, page: nat, dataOk: bool, indexOk: bool, d: Image)
    requires WellFormed(v) && SyncedTo(v, m.s, m.synced)
    ensures
      var after := MarkAfterSync(v, m, page, dataOk, indexOk, d);
      SyncedTo(v, after.s, after.synced)
  {
    hide Holds, Indexed, Flags, FrameSize, Offset, FlushLength;
    EndSynced(v);
  }

  /** After a sync the data are durable if and only if those before the page of the old mark were. */
  lemma SyncMakesSafe(v: View, m: Mark, page: nat, indexOk: bool, d: Image)
    requires WellFormed(v) && SyncedTo(v, m.s, m.synced) && SameSize(v, d) && page > 0
    ensures
      var from := m.s.data - PageDiff(m.s.data, page);
      DataSafe(v, MarkAfterSync(v, m, page, true, indexOk, d), AfterSync(v, m, page, true, indexOk, d)) <==>
        d.data[..from] == v.buffer[..from]
  {
    hide WellFormed, PageDiff;
    FlushCovers(d.data, v.buffer, m.s.data - PageDiff(m.s.data, page), v.w.data);
  }

  /** So a sync keeps durable data durable, when it fails too. */
  lemma SyncKeepsSafe(v: View, m: Mark, page: nat, dataOk: bool, indexOk: bool, d: Image)
    requires WellFormed(v) && SyncedTo(v, m.s, m.synced) && DataSafe(v, m, d) && page > 0
    ensures DataSafe(v, MarkAfterSync(v, m, page, dataOk, indexOk, d), AfterSync(v, m, page, dataOk, indexOk, d))
  {
    hide WellFormed, PageDiff;
    if dataOk {
      SyncMakesSafe(v, m, page, indexOk, d);
      PrefixOfPrefix(d.data, v.buffer, m.s.data, m.s.data - PageDiff(m.s.data, page));
    }
  }

  lemma SyncKeepsIndex(v: View, m: Mark, page: nat, dataOk: bool, indexOk: bool, d: Image)
    requires WellFormed(v) && SyncedTo(v, m.s, m.synced) && IndexSafe(v, m, d) && page > 0
    ensures IndexSafe(v, MarkAfterSync(v, m, page, dataOk, indexOk, d), AfterSync(v, m, page, dataOk, indexOk, d))
  {
    hide WellFormed, PageDiff, FlushLength;
    if dataOk && ReachesIndex(m.s.data, v.w.data, page) && indexOk {
      var from := m.s.index - PageDiff(8 * m.s.index, page) / 8;
      FlushCovers(d.index, v.index, from, v.w.index);
      PrefixOfPrefix(d.index, v.index, m.s.index, from);
    }
  }

  lemma SyncKeepsSound(v: View, m: Mark, page: nat, dataOk: bool, indexOk: bool, d: Image)
    requires WellFormed(v) && SyncedTo(v, m.s, m.synced) && Sound(v, m, d) && page > 0
    ensures Sound(v, MarkAfterSync(v, m, page, dataOk, indexOk, d), AfterSync(v, m, page, dataOk, indexOk, d))
  {
    hide WellFormed, IndexSafe, DataSafe, FlushLength, PageDiff;
    SyncKeepsSafe(v, m, page, dataOk, indexOk, d);
    SyncKeepsIndex(v, m, page, dataOk, indexOk, d);
    SyncKeepsStart(v, m, page, dataOk, indexOk, d);
  }

  lemma SyncKeepsAgreed(v: View, m: Mark, page: nat, dataOk: bool, indexOk: bool, d: Image, whole: bool)
    requires WellFormed(v) && SyncedTo(v, m.s, m.synced) && Agrees(v, m, d, whole) && page > 0
    ensures
      Agrees(v, MarkAfterSync(v, m, page, dataOk, indexOk, d), AfterSync(v, m, page, dataOk, indexOk, d), whole)
  {
    hide WellFormed, SyncedTo, Sound, DataSafe, MarkAfterSync, AfterSync;
    if whole {
      SyncKeepsSound(v, m, page, dataOk, indexOk, d);
    } else {
      SyncKeepsSafe(v, m, page, dataOk, indexOk, d);
    }
  }

  lemma SyncKeepsStart(v: View, m: Mark, page: nat, dataOk: bool, indexOk: bool, d: Image)
    requires WellFormed(v) && SyncedTo(v, m.s, m.synced) && StartSafe(v, m, d) && page > 0
    ensures StartSafe(v, MarkAfterSync(v, m, page, dataOk, indexOk, d), AfterSync(v, m, page, dataOk, indexOk, d))
  {
    hide WellFormed, FlushLength;
    if dataOk && v.w.data == 0 {
      assert Flushed(d.data, v.buffer, 0, 0) == d.data;
    }
  }

  // What the other steps do.

  lemma CreatedSound(size: nat)
    requires HEADER_SIZE <= size < WORD
    ensures Sound(Created(size), Mark(Position(0, 0), 0), Zeroed(size))
  {
  }

  /** With nothing below the mark, the files may be on disk as they were created. */
  lemma ZeroedSound(v: View)
    requires WellFormed(v)
    ensures SyncedTo(v, Position(0, 0), 0) || v.stub
    ensures Sound(v, Mark(Position(0, 0), 0), Zeroed(|v.buffer|))
  {
    hide Holds, FrameSize, Offset;
    InBounds(v);
    FirstOffset(v.frames);
  }

  /** A write leaves what is below the mark, and so what is durable of it, as it was. */
  lemma WriteKeepsSafe(v: View, p: Payload, m: Mark, d: Image)
    requires WellFormed(v) && !v.eos && !v.stub && Fits(v, |p|) && v.w.index < |v.index| && SyncedTo(v, m.s, m.synced)
    ensures DataSafe(AfterWrite(v, p), m, d) <==> DataSafe(v, m, d)
    ensures Sound(v, m, d) ==> Sound(AfterWrite(v, p), m, d)
  {
    hide Holds, Indexed, PutFrame, IsHeader;
    PutFrameHolds(v.buffer, v.w.data, p);
    PrefixOfPrefix(AfterWrite(v, p).buffer, v.buffer, v.w.data, m.s.data);
    assert AfterWrite(v, p).index[..m.s.index] == v.index[..m.s.index];
  }

  lemma EosKeepsSafe(v: View, m: Mark, d: Image)
    requires WellFormed(v) && !v.eos && !v.stub && SyncedTo(v, m.s, m.synced)
    ensures v.w.data + HEADER_SIZE <= |v.buffer|
    ensures DataSafe(AfterEos(v), m, d) <==> DataSafe(v, m, d)
    ensures Sound(v, m, d) ==> Sound(AfterEos(v), m, d)
  {
    hide Holds, Indexed, PutEos, IsHeader;
    PutEosHolds(v.buffer, v.w.data);
    PrefixOfPrefix(AfterEos(v).buffer, v.buffer, v.w.data, m.s.data);
  }

  // What opening takes for durable.

  /** The data of a segment are on disk up to its end. */
  predicate DataOnDisk(v: View, d: Image) {
    SameSize(v, d) && v.w.data <= |v.buffer| && d.data[..v.w.data] == v.buffer[..v.w.data]
  }

  /** So is the index; and there is no header on disk where there is none in memory. */
  predicate AllOnDisk(v: View, d: Image) {
    DataOnDisk(v, d) && d.index == v.index && (v.w.data == 0 && HEADER_SIZE <= |d.data| ==> !IsHeader(d.data, 0))
  }

  predicate FoundOnDisk(v: View, d: Image, whole: bool) {
    if whole then AllOnDisk(v, d) else DataOnDisk(v, d)
  }

  /**
    Opening sets the sync mark to the end and flushes nothing. So the mark says what is durable if and only
    if the files on disk agree with the mapped ones already.
  */
  lemma OpenedAgrees(v: View, d: Image, whole: bool)
    requires WellFormed(v) && (v.eos ==> v.stub) && v.w.index < |v.index|
    ensures Agrees(v, Mark(v.w, |v.frames|), d, whole) <==> FoundOnDisk(v, d, whole)
  {
    hide Holds, IsHeader, Offset;
    InBounds(v);
    if whole && DataOnDisk(v, d) {
      Unindexed(v);
      assert d.index == d.index[..v.w.index] + d.index[v.w.index..];
      assert v.index == v.index[..v.w.index] + v.index[v.w.index..];
    }
  }

  lemma Unindexed(v: View)
    requires WellFormed(v)
    ensures forall i | v.w.index <= i < |v.index| :: v.index[i] == 0
  {
    hide Holds, IsHeader, Offset, Flags, FrameSize;
  }

  // Files with an end marker alone, that no index leads to.

  /** On disk they are as they were created, or have the end marker. */
  ghost predicate StubImage(buffer: seq<byte>, index: seq<nat>, d: Image) {
    && |d.data| == |buffer| && |d.index| == |index| && HEADER_SIZE <= |buffer|
    && (forall i | 0 <= i < |d.index| :: d.index[i] == 0)
    && (IsHeader(d.data, 0) ==> d.data[..HEADER_SIZE] == buffer[..HEADER_SIZE])
  }

  lemma ZeroedStubImage(buffer: seq<byte>, index: seq<nat>, size: nat)
    requires |buffer| == size >= HEADER_SIZE && |index| == Capacity(size)
    ensures StubImage(buffer, index, Zeroed(size))
  {
  }

  lemma StubImageOnFile(buffer: seq<byte>, index: seq<nat>, d: Image)
    requires OnFile(buffer, index, [], true) && StubImage(buffer, index, d)
    ensures OnFile(d.data, d.index, [], IsHeader(d.data, 0))
  {
    hide Flags, FrameSize;
    if IsHeader(d.data, 0) {
      SameHeader(d.data, buffer);
    }
  }

  lemma StubHasHeader(buffer: seq<byte>, index: seq<nat>, d: Image)
    requires StubImage(buffer, index, d)
    ensures HEADER_SIZE <= |d.data|
  {
  }

  /** A segment without frames that has ended: what its sync flushes begins at the start of the data. */
  predicate EndedAtOnce(v: View, m: Mark) {
    v.frames == [] && v.eos && v.w.data == HEADER_SIZE && m.s.data <= HEADER_SIZE && m.s.index <= v.w.index <= 1
  }

  lemma StubImageSynced(v: View, m: Mark, page: nat, dataOk: bool, indexOk: bool, d: Image)
    requires EndedAtOnce(v, m) && page >= 4096 && |v.index| > 0 && forall i | 0 <= i < |v.index| :: v.index[i] == 0
    requires StubImage(v.buffer, v.index, d)
    ensures StubImage(v.buffer, v.index, AfterSync(v, m, page, dataOk, indexOk, d))
  {
    hide IsHeader, FlushLength;
    WithinPage(m.s.data, page);
    WithinPage(8 * m.s.index, page);
    FlushCovers(d.data, v.buffer, 0, HEADER_SIZE);
  }

  lemma WithinPage(a: nat, page: nat)
    requires a < page
    ensures PageDiff(a, page) == a
  {
  }

  /** What such a close leaves: at most the end marker goes to disk. */
  lemma ReopenedSync(v: View, page: nat, dataOk: bool, indexOk: bool, d: Image)
    requires WellFormed(v) && v.frames == [] && v.eos && !v.stub && page >= 4096 && SameSize(v, d)
    requires forall i | 0 <= i < |d.index| :: d.index[i] == 0
    ensures
      var u := Reopened(v.buffer, v.index, [], true);
      var after := AfterSync(u, Mark(u.w, 0), page, dataOk, indexOk, d);
      && SameSize(v, after) && (forall i | 0 <= i < |d.index| :: after.index[i] == 0)
      && (after.data == d.data || after.data == Flushed(d.data, v.buffer, 0, HEADER_SIZE))
  {
    hide IsHeader, FlushLength, Flags, FrameSize, PageDiff, Holds;
    WithinPage(HEADER_SIZE, page);
    WithinPage(8, page);
  }

  /** Closing such files once more, behind the segment that is open on them, keeps what that segment has durable. */
  lemma ReopenedSyncKeeps(v: View, m: Mark, page: nat, dataOk: bool, indexOk: bool, d: Image)
    requires WellFormed(v) && SyncedTo(v, m.s, m.synced) && v.frames == [] && v.eos && !v.stub && page >= 4096
    ensures
      var u := Reopened(v.buffer, v.index, [], true);
      var after := AfterSync(u, Mark(u.w, 0), page, dataOk, indexOk, d);
      (DataSafe(v, m, d) ==> DataSafe(v, m, after)) && (Sound(v, m, d) ==> Sound(v, m, after))
  {
    hide IsHeader, FlushLength, Flags, FrameSize, PageDiff, Holds, AfterSync;
    var u := Reopened(v.buffer, v.index, [], true);
    var after := AfterSync(u, Mark(u.w, 0), page, dataOk, indexOk, d);
    if DataSafe(v, m, d) {
      ReopenedData(v, page, dataOk, indexOk, d);
      MarkerFlushed(v, m, d, after.data);
    }
    if Sound(v, m, d) {
      ReopenedSync(v, page, dataOk, indexOk, d);
      MarkerFlushed(v, m, d, after.data);
    }
  }

  lemma ReopenedData(v: View, page: nat, dataOk: bool, indexOk: bool, d: Image)
    requires WellFormed(v) && v.frames == [] && v.eos && !v.stub && page >= 4096 && SameSize(v, d)
    ensures
      var u := Reopened(v.buffer, v.index, [], true);
      var after := AfterSync(u, Mark(u.w, 0), page, dataOk, indexOk, d);
      && SameSize(v, after)
      && (after.data == d.data || after.data == Flushed(d.data, v.buffer, 0, HEADER_SIZE))
  {
    hide IsHeader, FlushLength, Flags, FrameSize, PageDiff, Holds;
    WithinPage(HEADER_SIZE, page);
  }

  lemma MarkerFlushed(v: View, m: Mark, d: Image, data: seq<byte>)
    requires WellFormed(v) && SyncedTo(v, m.s, m.synced) && v.frames == [] && v.eos && DataSafe(v, m, d)
    requires data == d.data || data == Flushed(d.data, v.buffer, 0, HEADER_SIZE)
    ensures |data| == |v.buffer| && m.s.data <= |v.buffer| && data[..m.s.data] == v.buffer[..m.s.data]
    ensures data != d.data ==> data[..HEADER_SIZE] == v.buffer[..HEADER_SIZE]
  {
    hide IsHeader, Flags, FrameSize, Holds, Indexed;
    if data != d.data {
      FlushCovers(d.data, v.buffer, 0, HEADER_SIZE);
      PrefixOfPrefix(data, v.buffer, HEADER_SIZE, m.s.data);
    }
  }

  // Loss of power.

  /** The frames that recovery finds on disk: those with a durable index entry, and the first one without. */
  function Kept(v: View, m: Mark): (frames: seq<Payload>)
    requires m.synced <= |v.frames| && (m.synced > 0 ==> m.s.index <= m.synced)
    ensures |frames| <= m.synced && frames <= v.frames
  {
    if m.synced == 0 then [] else v.frames[..if m.s.index == 0 then 1 else m.s.index]
  }

  lemma KeptFits(v: View, m: Mark)
    requires WellFormed(v) && SyncedTo(v, m.s, m.synced)
    ensures m.synced <= |v.frames| && (m.synced > 0 ==> m.s.index <= m.synced && !v.stub)
  {
    hide Holds, Indexed, Flags, FrameSize;
  }

  /** An end marker alone, or nothing. */
  predicate KeptStub(m: Mark, d: Image)
    requires HEADER_SIZE <= |d.data|
  {
    m.synced == 0 && IsHeader(d.data, 0)
  }

  /** Whatever was synced and whatever failed, the files on disk are whole frames that recovery reads. */
  lemma PowerLossLeaves(v: View, m: Mark, d: Image)
    requires WellFormed(v) && SyncedTo(v, m.s, m.synced) && Sound(v, m, d)
    ensures m.synced <= |v.frames| && (m.synced > 0 ==> m.s.index <= m.synced) && HEADER_SIZE <= |d.data|
    ensures OnFile(d.data, d.index, Kept(v, m), KeptStub(m, d))
  {
    hide WellFormed, OnFile, Sound;
    KeptFits(v, m);
    if m.synced == 0 {
      NothingKept(v, m, d);
    } else {
      FramesKept(v, m, d);
    }
  }

  lemma NothingKept(v: View, m: Mark, d: Image)
    requires WellFormed(v) && SyncedTo(v, m.s, m.synced) && Sound(v, m, d) && m.synced == 0
    ensures HEADER_SIZE <= |d.data| && OnFile(d.data, d.index, [], IsHeader(d.data, 0))
  {
    hide Flags, FrameSize, HoldsAt;
    if m.s.data > 0 || IsHeader(d.data, 0) {
      PrefixOfPrefix(d.data, v.buffer, if m.s.data > 0 then m.s.data else HEADER_SIZE, HEADER_SIZE);
      SameHeader(d.data, v.buffer);
    }
    forall i | 0 <= i < |d.index| ensures d.index[i] == 0 {
      assert i < m.s.index ==> d.index[i] == d.index[..m.s.index][i] == v.index[i];
    }
  }

  lemma SameHeader(a: seq<byte>, b: seq<byte>)
    requires HEADER_SIZE <= |a| && HEADER_SIZE <= |b| && a[..HEADER_SIZE] == b[..HEADER_SIZE]
    ensures Flags(a, 0) == Flags(b, 0) && FrameSize(a, 0) == FrameSize(b, 0)
  {
    assert forall i | 0 <= i < HEADER_SIZE :: a[i] == a[..HEADER_SIZE][i] == b[..HEADER_SIZE][i] == b[i];
  }

  lemma HoldsFirst(buffer: seq<byte>, frames: seq<Payload>, k: nat)
    requires Holds(buffer, frames) && k <= |frames|
    ensures Holds(buffer, frames[..k]) && End(frames[..k]) == Offset(frames, k)
  {
    hide HoldsAt, Offset;
    assert frames[..k] + frames[k..] == frames;
    forall i | 0 <= i <= k ensures Offset(frames[..k], i) == Offset(frames, i) {
      OffsetStays(frames[..k], frames[k..], i);
    }
    if k < |frames| {
      OffsetsAscend(frames, k, |frames|);
    }
    forall i | 0 <= i < k ensures HoldsAt(buffer, Offset(frames[..k], i), frames[..k][i]) {
      assert HoldsAt(buffer, Offset(frames, i), frames[i]);
    }
  }

  lemma FramesKept(v: View, m: Mark, d: Image)
    requires WellFormed(v) && SyncedTo(v, m.s, m.synced) && Sound(v, m, d) && m.synced > 0
    requires m.synced <= |v.frames| && m.s.index <= m.synced
    ensures HEADER_SIZE <= |d.data| && OnFile(d.data, d.index, Kept(v, m), false)
  {
    hide Holds, Flags, FrameSize, IsHeader, Offset;
    var k := |Kept(v, m)|;
    HoldsFirst(v.buffer, v.frames, k);
    KeptBound(v, m, k);
    PrefixOfPrefix(d.data, v.buffer, m.s.data, Offset(v.frames, k));
    HoldsKept(v.buffer, d.data, v.frames[..k]);
    FirstOffset(v.frames);
    forall i | 0 <= i < k ensures d.index[i] == Offset(v.frames[..k], i) {
      OffsetStays(v.frames[..k], v.frames[k..], i);
      assert v.frames[..k] + v.frames[k..] == v.frames;
      assert i < m.s.index ==> d.index[i] == d.index[..m.s.index][i] == v.index[i];
    }
  }

  lemma KeptBound(v: View, m: Mark, k: nat)
    requires WellFormed(v) && SyncedTo(v, m.s, m.synced) && k <= m.synced && 0 < m.synced <= |v.frames|
    ensures Offset(v.frames, k) <= m.s.data && Offset(v.frames, k) + HEADER_SIZE <= |v.buffer|
  {
    hide Holds, Indexed, Flags, FrameSize, Offset;
    if k < m.synced {
      OffsetsAscend(v.frames, k, m.synced);
    }
    if m.synced < |v.frames| {
      OffsetsAscend(v.frames, m.synced, |v.frames|);
    }
  }

  /**
    After the loss of power exactly the frames of a committed read are found again if and only if the
    index is durable as far as the data, or there is but one such frame.
  */
  lemma CommittedSurvive(v: View, m: Mark)
    requires WellFormed(v) && SyncedTo(v, m.s, m.synced)
    ensures m.synced <= |v.frames| && (m.synced > 0 ==> m.s.index <= m.synced)
    ensures Kept(v, m) == v.frames[..m.synced] <==> m.synced <= 1 || m.s.index == m.synced
  {
    hide WellFormed;
    KeptFits(v, m);
    if m.synced > 1 && m.s.index != m.synced {
      assert |Kept(v, m)| < |v.frames[..m.synced]|;
    }
  }

  /** Whether all that a segment holds would be found on disk, from its mark: the frames are below it, and indexed. */
  predicate Lasts(v: View, m: Mark) {
    v.stub || (m.synced == |v.frames| && (m.s.index == |v.frames| || |v.frames| == 1))
  }

  /** What recovery finds on disk is all of the segment if and only if its mark says so. */
  lemma LastsExactly(v: View, m: Mark)
    requires WellFormed(v) && SyncedTo(v, m.s, m.synced)
    ensures m.synced <= |v.frames| && (m.synced > 0 ==> m.s.index <= m.synced)
    ensures !v.stub ==> (Kept(v, m) == v.frames <==> Lasts(v, m))
    ensures v.w.index == 0 ==> Lasts(v, m)
  {
    hide Holds, Indexed, Flags, FrameSize, Offset;
    KeptFits(v, m);
    if Kept(v, m) == v.frames {
      assert |Kept(v, m)| == |v.frames|;
    }
  }

  /** Whether a sync whose msync of the data succeeds gets a segment there. */
  predicate Secures(v: View, m: Mark, page: nat, indexOk: bool) {
    || v.stub || |v.frames| <= 1 || m.s.index == |v.frames|
    || (indexOk && page > 0 && m.s.data <= v.w.data && ReachesIndex(m.s.data, v.w.data, page))
  }

  lemma SecuresExactly(v: View, m: Mark, page: nat, indexOk: bool, d: Image)
    requires WellFormed(v) && SyncedTo(v, m.s, m.synced) && Syncable(v, m, page, d)
    ensures Lasts(v, MarkAfterSync(v, m, page, true, indexOk, d)) <==> Secures(v, m, page, indexOk)
  {
    hide Holds, Indexed, Flags, FrameSize, Offset, FlushLength;
  }

  /**
    Whether a sync that reports success gets there: the index was there already, or does not matter, or
    there are bytes to flush, which are data beyond the mark, or the start of the page that the mark is in.
  */
  predicate SecuresIfDone(v: View, m: Mark, page: nat) {
    || v.stub || |v.frames| <= 1 || m.s.index == |v.frames|
    || m.s.data < v.w.data || (page > 0 && m.s.data % page != 0)
  }

  lemma CompletedSecures(v: View, m: Mark, page: nat, indexOk: bool, d: Image)
    requires WellFormed(v) && SyncedTo(v, m.s, m.synced) && Syncable(v, m, page, d)
    requires SyncCompletes(m.s.data, v.w.data, page, indexOk)
    ensures Lasts(v, MarkAfterSync(v, m, page, true, indexOk, d)) <==> SecuresIfDone(v, m, page)
    ensures Secures(v, m, page, indexOk) <==> SecuresIfDone(v, m, page)
  {
    hide WellFormed, SyncedTo, MarkAfterSync, Lasts;
    SecuresExactly(v, m, page, indexOk, d);
  }

  /**
    A sync whose index failed is not made good by another one: with the data mark at its end and at the
    start of a page, the next sync has nothing to flush, reports success, and leaves the index behind.
  */
  lemma RetryLeavesIndex(v: View, m: Mark, page: nat, d: Image)
    requires WellFormed(v) && SyncedTo(v, m.s, m.synced) && SameSize(v, d) && page > 0
    requires m.s.data == v.w.data && m.s.data % page == 0
    ensures SyncCompletes(m.s.data, v.w.data, page, true)
    ensures MarkAfterSync(v, m, page, true, true, d).s == m.s && AfterSync(v, m, page, true, true, d).index == d.index
  {
    hide WellFormed;
  }

  /** Recovery from disk, when the index has a slot left. */
  lemma PowerLossRecovers(v: View, m: Mark, d: Image, r: Option<Position>)
    requires WellFormed(v) && SyncedTo(v, m.s, m.synced) && Sound(v, m, d)
    requires HEADER_SIZE <= |d.data| && Recovers(d.data, d.index, r)
    ensures m.synced <= |v.frames| && (m.synced > 0 ==> m.s.index <= m.synced)
    ensures
      var found := Reopened(d.data, d.index, Kept(v, m), KeptStub(m, d));
      r == if found.w.index < |d.index| then Some(found.w) else None
  {
    hide WellFormed, OnFile, Sound, Recovers;
    PowerLossLeaves(v, m, d);
    RecoversFile(d.data, d.index, Kept(v, m), KeptStub(m, d), r);
  }
}
