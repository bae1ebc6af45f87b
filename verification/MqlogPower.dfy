/**
  The loss of power under the log of src/mqlog.c: the mapped memory is gone, and mqlog_open finds what
  msync had put on disk. And what committed reads hand out of files that were never flushed.
*/
module MqlogPower {
  import opened Prot
  import opened SegmentLayout
  import opened SegmentDisk
  import opened MqlogLayout
  import opened MqlogDisk
  import opened MqlogFiles
  import Shape = MbpTreeShape
  import opened Mqlog

  /** The files of a log as they are on disk, with what recovery makes of each. */
  ghost function FilesOnDisk(log: Log): seq<Part>
    requires log.Valid() && log.Agreed(true)
    reads log, log.index, log.index.footprint, log.home.Keys, log.segments, log.directory
  {
    log.AllSoundNow();
    if log.stub.Some? then
      log.StubIsSound();
      LostFiles(log.parts, log.Marks(), log.directory.durable, log.StubOnFile())
    else
      LostFiles(log.parts, log.Marks(), log.directory.durable, None)
  }

  /**
    After the loss of power the files tile the offsets if and only if the sync marks of all segments but
    the last are at their ends, and that of the last, too, when a refused payload has left files after it.
    What is found is then what the log held, cut off in the last file. mqlog_sync flushes the last segment
    only, and so need not get there (`SyncMissesRollover`).
  */
  lemma PowerLossTiles(log: Log)
    requires log.Valid() && log.Agreed(true)
    ensures |FilesOnDisk(log)| == |log.parts| + (if log.stub.Some? then 1 else 0) && |log.segments| == |log.parts|
    ensures
      var found := FilesOnDisk(log);
      && (Tiles(found) <==> AllLast(log.parts, log.Marks(), if found == [] then 0 else |found| - 1))
      && (Tiles(found) && found != [] ==>
            Contents(found) == Contents(log.parts[..|found| - 1]) + Entries(found[|found| - 1].view))
  {
    hide Log.Valid, Tiles, Contents, Entries, Lost, AllLast, AllSound, LostFiles, StubSound;
    log.AllSoundNow();
    if log.stub.Some? {
      log.StubIsSound();
      LostFilesTile(log.parts, log.Marks(), log.directory.durable, log.StubOnFile());
    } else {
      LostFilesTile(log.parts, log.Marks(), log.directory.durable, None);
    }
  }

  /** Recovery finds all that the log holds. */
  ghost predicate NothingLost(log: Log)
    requires log.Valid() && log.Agreed(true)
    reads log, log.index, log.index.footprint, log.home.Keys, log.segments, log.directory
  {
    Tiles(FilesOnDisk(log)) && Contents(log.parts) <= Contents(FilesOnDisk(log))
  }

  /** Nothing is lost with the power if and only if every sync mark is at the end of its segment. */
  lemma NothingLostExactly(log: Log)
    requires log.Valid() && log.Agreed(true)
    ensures |log.segments| == |log.parts|
    ensures NothingLost(log) <==> AllLast(log.parts, log.Marks(), |log.parts|)
  {
    hide Log.Valid, Tiles, Contents, Lost, AllLast, AllSound, LostFiles, StubSound;
    log.AllSoundNow();
    if log.stub.Some? {
      log.StubIsSound();
      NothingIsLost(log.parts, log.Marks(), log.directory.durable, log.StubOnFile());
    } else {
      NothingIsLost(log.parts, log.Marks(), log.directory.durable, None);
    }
  }

  /** A sync that reports success would get every segment there. */
  ghost predicate AllSecuredIfDone(parts: seq<Part>, marks: seq<Mark>, page: nat)
    requires |marks| == |parts|
  {
    forall i | 0 <= i < |parts| :: SecuresIfDone(parts[i].view, marks[i], page)
  }

  /**
    mqlog_close, and then the loss of power. After a close without a fault on the data nothing is lost if
    and only if every index got there; after one that reports no error, if and only if it was there, or
    does not matter, or there were bytes to flush.
  */
  method CloseAndLose(log: Log, dataFaults: set<nat>, indexFaults: set<nat>) returns (errors: nat)
    requires log.Valid() && log.Agreed(true) && |log.segments| == |log.parts|
    modifies log.segments, log.index`sharedLock, log.directory`durable
    ensures log.parts == old(log.parts) && log.Valid() && log.Agreed(true)
    ensures dataFaults !! Bases(log.parts) ==>
              (NothingLost(log) <==> AllSecure(log.parts, old(log.Marks()), log.page, indexFaults))
    ensures errors == 0 ==>
              (NothingLost(log) <==> AllSecuredIfDone(log.parts, old(log.Marks()), log.page))
  {
    hide Log.Core, Log.OnDisk, Log.Exact, Bases, AllLast, AllSecure, AllSyncable, SyncedFirst, AllComplete,
      Log.Marks, Log.Agreed, NothingLost;
    ghost var marks, durable := log.Marks(), log.directory.durable;
    log.ReadyToSync();
    var visited;
    errors, visited := log.Close(dataFaults, indexFaults);
    NothingLostExactly(log);
    if errors == 0 {
      SecureIfDone(log.parts, marks, durable, log.page, dataFaults, indexFaults);
    }
    if dataFaults !! Bases(log.parts) {
      ClosedLast(log.parts, marks, durable, log.Marks(), log.directory.durable, log.page, dataFaults, indexFaults);
    }
  }

  /** A directory after the loss of power: the files are mapped again, and are what is on disk. */
  ghost predicate Survives(directory: Directory, log: Log, owner: map<object, nat>)
    reads directory, log.directory
    reads set b | b in directory.files :: directory.files[b].buffer
    reads set b | b in directory.files :: directory.files[b].index
  {
    && directory.files.Keys == log.directory.files.Keys == log.directory.durable.Keys == directory.durable.Keys
    && forall b | b in directory.files ::
         directory.durable[b] == log.directory.durable[b]
         && HoldsImage(directory.files[b], b, directory.durable[b], owner)
  }

  ghost predicate HoldsImage(file: File, base: nat, d: Image, owner: map<object, nat>)
    reads file.buffer, file.index
  {
    && file.buffer[..] == d.data && file.index[..] == d.index
    && file.buffer in owner && owner[file.buffer] == base && file.index in owner && owner[file.index] == base
  }

  lemma ImageHolds(file: File, base: Shape.Key, d: Image, frames: seq<Payload>, stub: bool, owner: map<object, nat>)
    requires HoldsImage(file, base, d, owner) && OnFile(d.data, d.index, frames, stub)
    ensures FileHolds(file, Part(base, Reopened(d.data, d.index, frames, stub)), owner)
  {
    hide Holds, Indexed, Flags, FrameSize;
  }

  lemma SegmentSurvives(log: Log, directory: Directory, owner: map<object, nat>, i: nat)
    requires log.Valid() && log.Agreed(true) && Survives(directory, log, owner) && i < |log.parts|
    ensures i < |FilesOnDisk(log)| && FilesOnDisk(log)[i].base == log.parts[i].base
    ensures log.parts[i].base in directory.files
    ensures FileHolds(directory.files[log.parts[i].base], FilesOnDisk(log)[i], owner)
  {
    hide Log.Core, Log.OnDisk, FileHolds, OnFile, HoldsImage, WellFormed, SyncedTo, Sound;
    log.AllSoundNow();
    log.Mapped(i);
    if log.stub.Some? {
      log.StubIsSound();
    }
    var v, m, d := log.parts[i].view, log.Marks()[i], log.directory.durable[log.parts[i].base];
    assert SoundAt(log.parts, log.Marks(), log.directory.durable, i);
    LostOnFile(v, m, d);
    ImageHolds(directory.files[log.parts[i].base], log.parts[i].base, d, Kept(v, m), KeptStub(m, d), owner);
  }

  lemma StubSurvives(log: Log, directory: Directory, owner: map<object, nat>)
    requires log.Valid() && log.Agreed(true) && Survives(directory, log, owner) && log.stub.Some?
    ensures |FilesOnDisk(log)| == |log.parts| + 1 && FilesOnDisk(log)[|log.parts|].base == NextBase(log.parts)
    ensures NextBase(log.parts) in directory.files
    ensures FileHolds(directory.files[NextBase(log.parts)], FilesOnDisk(log)[|log.parts|], owner)
  {
    hide Log.Core, Log.Covers, Bases, OnFile, StubImage, FileHolds, HoldsImage, Lost, AllSound;
    log.AllSoundNow();
    log.StubIsSound();
    SameLength(log.parts, log.Marks(), log.directory.durable);
    var d := log.directory.durable[NextBase(log.parts)];
    ImageHolds(directory.files[NextBase(log.parts)], NextBase(log.parts), d, [], IsHeader(d.data, 0), owner);
  }

  lemma FilesFound(log: Log)
    requires log.Valid() && log.Agreed(true)
    ensures Bases(FilesOnDisk(log)) == log.directory.files.Keys
    ensures |FilesOnDisk(log)| == |log.parts| + if log.stub.Some? then 1 else 0
  {
    hide Log.Core, Log.Covers, Log.StubOnDisk, Bases, AllSound, Lost, LostStub, Tiles;
    log.AllSoundNow();
    var lost := Lost(log.parts, log.Marks(), log.directory.durable);
    SameLength(log.parts, log.Marks(), log.directory.durable);
    forall i | 0 <= i < |log.parts| ensures lost[i].base == log.parts[i].base {
      LostAt(log.parts, log.Marks(), log.directory.durable, i);
    }
    SameBases(log.parts, lost);
    if log.stub.Some? {
      log.StubIsSound();
      BasesSnoc(lost, FilesOnDisk(log)[|log.parts|]);
      assert FilesOnDisk(log) == lost + [FilesOnDisk(log)[|log.parts|]];
    } else {
      assert FilesOnDisk(log) == lost;
    }
  }

  /** What recovery is given, when the files tile the offsets. */
  lemma SurvivesRecorded(log: Log, directory: Directory, owner: map<object, nat>)
    requires log.Valid() && log.Agreed(true) && Survives(directory, log, owner) && Tiles(FilesOnDisk(log))
    ensures Recorded(directory.files, FilesOnDisk(log), owner)
  {
    hide Log.Core, Log.OnDisk, FileHolds, HoldsImage, Tiles, FilesOnDisk, Bases;
    FilesFound(log);
    forall i | 0 <= i < |FilesOnDisk(log)|
      ensures FilesOnDisk(log)[i].base in directory.files
      ensures FileHolds(directory.files[FilesOnDisk(log)[i].base], FilesOnDisk(log)[i], owner)
    {
      if i < |log.parts| {
        SegmentSurvives(log, directory, owner, i);
      } else {
        StubSurvives(log, directory, owner);
      }
    }
  }

  /** What recovery finds on disk is on disk. */
  lemma SurvivorsAreOnDisk(log: Log, directory: Directory, owner: map<object, nat>, whole: bool)
    requires log.Valid() && log.Agreed(true) && Survives(directory, log, owner)
    ensures OnDiskAsFound(FilesOnDisk(log), directory.durable, whole)
  {
    hide Log.Core, Log.OnDisk, FileHolds, HoldsImage, FilesOnDisk, Bases, FoundOnDisk;
    FilesFound(log);
    forall i | 0 <= i < |FilesOnDisk(log)|
      ensures FilesOnDisk(log)[i].base in directory.durable
      ensures FoundOnDisk(FilesOnDisk(log)[i].view, directory.durable[FilesOnDisk(log)[i].base], whole)
    {
      if i < |log.parts| {
        SegmentSurvives(log, directory, owner, i);
      } else {
        StubSurvives(log, directory, owner);
      }
      var part := FilesOnDisk(log)[i];
      AsMapped(directory.files[part.base], part, directory.durable[part.base], owner, whole);
    }
  }

  lemma AsMapped(file: File, part: Part, d: Image, owner: map<object, nat>, whole: bool)
    requires HoldsImage(file, part.base, d, owner) && FileHolds(file, part, owner)
    ensures FoundOnDisk(part.view, d, whole)
  {
    hide HoldsAt, Indexed, Flags, FrameSize, Offset, IsHeader;
    if part.view.frames != [] {
      OffsetsAscend(part.view.frames, 0, |part.view.frames|);
    }
  }

  /**
    mqlog_open after the loss of power, when the files tile the offsets: it succeeds exactly when the sizes
    are whole pages and every index has a slot left, and the log is then what `PowerLossTiles` says. Its
    marks say what is on disk, so that it can go on, and lose power again.
  */
  method OpenAfterPowerLoss(log: Log, directory: Directory, listing: seq<Shape.Key>, size: nat, page: nat,
                            ghost owner: map<object, nat>) returns (r: LogOpening)
    requires log.Valid() && log.Agreed(true) && Tiles(FilesOnDisk(log))
    requires IsPage(page) && 0 < size < WORD && directory !in owner && directory.Imaged()
    requires Survives(directory, log, owner)
    requires Ascends(listing) && forall b: Shape.Key :: b in listing <==> b in directory.files
    modifies directory`durable
    ensures r.OpenedLog? <==>
              size % page == 0 && InPages(old(FilesOnDisk(log)), page) && SlotsLeft(old(FilesOnDisk(log)))
    ensures r.OpenedLog? ==>
              && r.log.Valid() && r.log.parts == old(FilesOnDisk(log)) && r.log.stub == None && !r.log.lock.held
              && r.log.size == size && r.log.page == page && r.log.committed == log.committed
              && r.log.directory == directory && |r.log.segments| == |r.log.parts|
              && forall k :: !r.log.Withheld(k)
    ensures r.OpenedLog? ==> directory.durable == old(directory.durable) && forall whole :: r.log.Agreed(whole)
    ensures r.OpenedLog? ==>
              && fresh(r.log) && fresh(r.log.lock) && fresh(r.log.index) && fresh(r.log.index.footprint)
              && fresh(r.log.home.Keys - owner.Keys)
  {
    hide Log.Core, Log.OnDisk, Log.Exact, Tiles, InPages, SlotsLeft, Survives, Recorded, FilesOnDisk, Log.Withheld,
      Log.Agreed, OnDiskAsFound, ClosedFirst;
    SurvivesRecorded(log, directory, owner);
    forall whole ensures OnDiskAsFound(FilesOnDisk(log), directory.durable, whole) {
      SurvivorsAreOnDisk(log, directory, owner, whole);
    }
    r := Open(directory, listing, size, page, log.committed, FilesOnDisk(log), owner);
  }

  // Two runs: what committed reads hand out, and what a sync leaves behind.

  /** The bytes of a frame are not those of a new file. */
  lemma FrameIsNotZero(v: View, size: nat)
    requires WellFormed(v) && v.frames != []
    ensures !DataOnDisk(v, Zeroed(size))
  {
    hide Indexed, Le16, Le32;
    FirstOffset(v.frames);
    assert HoldsAt(v.buffer, Offset(v.frames, 0), v.frames[0]);
    FrameReads(v.buffer, 0, v.frames[0]);
    OffsetsAscend(v.frames, 0, |v.frames|);
    StartOnDisk(v, Zeroed(size));
  }

  lemma StartOnDisk(v: View, d: Image)
    ensures DataOnDisk(v, d) && v.w.data >= 2 ==> d.data[0] == v.buffer[0] && d.data[1] == v.buffer[1]
  {
    if DataOnDisk(v, d) && v.w.data >= 2 {
      assert d.data[0] == d.data[..v.w.data][0] && d.data[1] == d.data[..v.w.data][1];
    }
  }

  /** A log with one entry has it in its first segment. */
  lemma FirstEntry(parts: seq<Part>, p: Payload)
    requires Tiles(parts) && Contents(parts) == [Record(p)]
    ensures parts != [] && parts[0].base == 0 && parts[0].view.frames != [] && WellFormed(parts[0].view)
    ensures |parts| == 1 ==> parts[0].view.frames == [p] && !parts[0].view.stub
  {
    hide WellFormed, Contents, Entries;
    ContentsLength(parts);
    EmptyContents();
    assert TiledAt(parts, 0);
    assert parts[0].view.w.index > 0;
    EntriesLength(parts[0].view);
    ContentsAt(parts, 0, 0);
    EntriesOf(parts[0].view);
    if |parts| == 1 {
      assert |parts[0].view.frames| == 1;
      EntryIsFrame(parts[0].view, 0);
    }
  }

  lemma EmptyContents()
    ensures Contents([]) == []
  {
  }

  lemma EntriesOf(v: View)
    requires WellFormed(v) && |Entries(v)| > 0 && Entries(v)[0].Record?
    ensures !v.stub && |v.frames| == |Entries(v)|
  {
    hide Holds, Indexed;
  }

  /**
    A log whose process ended without mqlog_close, opened again: the mapped files have all that was written,
    and all of it is handed out by committed reads. Nothing was flushed in between.
  */
  method ReopenUnclosed(log: Log, listing: seq<Shape.Key>) returns (r: LogOpening)
    requires log.Valid() && SlotsLeft(log.parts)
    requires Ascends(listing) && forall b: Shape.Key :: b in listing <==> b in log.directory.files
    modifies log.directory`durable
    ensures r.OpenedLog? && r.log.Valid() && !r.log.lock.held && fresh(r.log) && fresh(r.log.lock)
    ensures fresh(r.log.index)
    ensures Contents(r.log.parts) == Contents(log.parts) + if log.Spent() then [Hole] else []
    ensures |r.log.segments| == |r.log.parts| && forall k :: !r.log.Withheld(k)
    ensures r.log.committed == log.committed && r.log.directory == log.directory
    ensures log.directory.durable == old(log.directory.durable)
    ensures forall whole :: r.log.Agreed(whole) <==> OnDiskAsFound(r.log.parts, log.directory.durable, whole)
  {
    hide Log.Core, Log.OnDisk, Log.Exact, Tiles, Contents, InPages, SlotsLeft, Log.Agreed, Log.Withheld, Log.Spent,
      Recorded, OnDiskAsFound;
    WholePages(log);
    log.LeavesFiles();
    log.LeavesSlots(log.page);
    r := Open(log.directory, listing, log.size, log.page, log.committed, log.OnFileParts(), log.Owner());
  }

  lemma WholePages(log: Log)
    requires log.Valid()
    ensures IsPage(log.page) && 0 < log.size < WORD && log.size % log.page == 0 && InPages(log.parts, log.page)
  {
    hide Log.StubOnDisk, Bases;
    forall i | 0 <= i < |log.parts| ensures |log.parts[i].view.buffer| % log.page == 0 {
      assert log.At(i);
    }
  }

  /** One entry, written to an empty directory, and not synced. */
  method WriteOne(payload: Payload) returns (log: Log)
    requires 86 <= |payload| <= 4096 - 2 * HEADER_SIZE
    ensures log.Valid() && log.committed && Contents(log.parts) == [Record(payload)] && !log.Spent() && log.Sized()
    ensures log.directory.durable == map[0 := Zeroed(4096)] && |log.parts| == 1
    ensures log.size == log.page == 4096 && !log.lock.held
    ensures |log.segments| == |log.parts| && log.Withheld(0) && forall whole :: log.Agreed(whole)
    ensures fresh(log) && fresh(log.lock) && fresh(log.index) && fresh(log.index.footprint) && fresh(log.home.Keys)
    ensures fresh(log.directory)
  {
    hide Log.Core, Log.OnDisk, Log.Exact, Tiles, Contents, InPages, SlotsLeft, Log.Agreed, Log.Withheld, Log.Spent,
      Zeroed, Recorded, OnDiskAsFound;
    var directory := new Directory();
    NothingOnFile(4096);
    EmptyContents();
    var opening := Open(directory, [], 4096, 4096, true, [], map[]);
    log := opening.log;
    NothingSpent(log);
    log.Room(payload);
    log.TakesExactly(|payload|);
    forall whole ensures log.Agreed(whole) {
      NothingToFind(directory.durable, whole);
    }
    var w := log.Write(payload);
  }

  /**
    An entry that was written and neither synced nor closed is handed out by a committed read once the log
    is opened again on the same files. Nothing of it is on disk.
  */
  method UnflushedIsRead(payload: Payload) returns (log: Log, r: ReadResult)
    requires 86 <= |payload| <= 4096 - 2 * HEADER_SIZE
    ensures log.Valid() && log.committed && Contents(log.parts) == [Record(payload)] && HandsOut(r, payload)
    ensures log.directory.durable == map[0 := Zeroed(4096)] && !log.Agreed(false)
  {
    hide Log.Core, Log.OnDisk, Log.Exact, Tiles, Contents, InPages, SlotsLeft, Log.Agreed, Log.Withheld, Log.Spent,
      Zeroed, OnDiskAsFound;
    var first := WriteOne(payload);
    first.CanReopen();
    var listing := first.Listing();
    var opening := ReopenUnclosed(first, listing);
    log := opening.log;
    r := log.Read(0);
    log.Separate();
    FirstEntry(log.parts, payload);
    FrameIsNotZero(log.parts[0].view, 4096);
    NotFound(log.parts, log.directory.durable, 0);
  }

  lemma NothingOnFile(page: nat)
    requires page > 0
    ensures InPages([], page) && SlotsLeft([]) && Recorded(map[], [], map[]) && Ascends([]) && Tiles([])
  {
  }

  lemma NothingToFind(durable: map<nat, Image>, whole: bool)
    ensures OnDiskAsFound([], durable, whole)
  {
  }

  lemma NothingSpent(log: Log)
    requires log.Valid() && log.parts == [] && log.stub == None
    ensures !log.Spent() && log.Sized() && AtLeast(Contents(log.parts), 86)
  {
    hide Log.OnDisk;
  }

  lemma NotFound(parts: seq<Part>, durable: map<nat, Image>, i: nat)
    requires i < |parts| && (parts[i].base in durable ==> !DataOnDisk(parts[i].view, durable[parts[i].base]))
    ensures !OnDiskAsFound(parts, durable, false)
  {
  }

  /** A segment of a page is full with one payload of 4072 bytes. */
  lemma FullWithOne(log: Log, p: Payload)
    requires log.Valid() && Contents(log.parts) == [Record(p)] && |log.parts| == 1 && log.Sized() && log.size == 4096
    requires |p| == 4096 - 2 * HEADER_SIZE
    ensures Tiles(log.parts) && !LastTakes(log.parts, |p|) && NextBase(log.parts) == 1 && log.parts[0].base == 0
  {
    hide Log.OnDisk, Contents, WellFormed, MarkedEos;
    assert log.At(0) && TiledAt(log.parts, 0);
    FirstEntry(log.parts, p);
    EndOfOne(log.parts[0].view, p);
    ContentsLength(log.parts);
  }

  lemma EndOfOne(v: View, p: Payload)
    requires WellFormed(v) && v.frames == [p]
    ensures v.w.data >= FrameLength(p)
  {
    hide Holds, Indexed;
  }

  /** An entry of the first segment that is withheld would be lost. */
  lemma FirstIsLost(log: Log)
    requires log.Valid() && |log.parts| == 2 && log.parts[0].base == 0 && log.parts[1].base == 1
    requires log.parts[0].view.frames != [] && |log.segments| == 2 && log.Withheld(0)
    ensures !Lasts(log.parts[0].view, log.Marks()[0])
  {
    hide Log.Core, Log.OnDisk, Log.Exact, WellFormed;
    log.Separate();
    assert TiledAt(log.parts, 0) && TiledAt(log.parts, 1);
    NoStub(log.parts[0].view);
    assert log.Marks()[0].synced == 0;
  }

  lemma NoStub(v: View)
    requires WellFormed(v) && v.frames != []
    ensures !v.stub
  {
  }

  /** Two entries in two segments have one each. */
  lemma OneEach(parts: seq<Part>, p: Payload, q: Payload)
    requires Tiles(parts) && Contents(parts) == [Record(p), Record(q)] && |parts| == 2 && !LastEmpty(parts)
    ensures parts[0].base == 0 && parts[1].base == 1 && parts[0].view.frames != []
  {
    hide WellFormed, Contents, Entries;
    ContentsLength(parts);
    assert TiledAt(parts, 0) && TiledAt(parts, 1);
    EntriesLength(parts[0].view);
    ContentsAt(parts, 0, 0);
    EntriesOf(parts[0].view);
  }

  /** Two entries, each of which fills a segment. */
  method WriteTwo(p: Payload, q: Payload) returns (log: Log)
    requires |p| == |q| == 4096 - 2 * HEADER_SIZE
    ensures log.Valid() && log.Agreed(true) && Contents(log.parts) == [Record(p), Record(q)] && !LastEmpty(log.parts)
    ensures |log.parts| == |log.segments| == 2 && log.Withheld(0)
    ensures 0 in log.directory.durable && log.directory.durable[0] == Zeroed(4096)
    ensures log.Sized() && log.size == log.page == 4096 && fresh(log.home.Keys) && fresh(log.directory)
  {
    hide Log.Core, Log.OnDisk, Log.Exact, Tiles, Contents, Log.Agreed, Log.Withheld, Log.Spent, LastTakes, Zeroed;
    log := WriteOne(p);
    log.Room(q);
    log.TakesExactly(|q|);
    FullWithOne(log, p);
    var w := log.Write(q);
  }

  /** The segment that a write had left behind is not flushed by mqlog_sync: its success does not cover that. */
  method SyncMissesRollover(p: Payload, q: Payload) returns (log: Log, synced: bool)
    requires |p| == |q| == 4096 - 2 * HEADER_SIZE
    ensures log.Valid() && log.Agreed(true) && Contents(log.parts) == [Record(p), Record(q)] && synced
    ensures !Tiles(FilesOnDisk(log))
  {
    hide Log.Core, Log.OnDisk, Log.Exact, Tiles, Contents, Log.Agreed, Log.Withheld, Log.Spent, Zeroed, FilesOnDisk,
      Lasts, LastSynced, LastCompletes;
    log := WriteTwo(p, q);
    log.Separate();
    OneEach(log.parts, p, q);
    log.InHome();
    assert log.segments[1] in log.home.Keys;
    SecondSynced(log);
    var r := log.Sync(true, true);
    synced := r.Done?;
    FirstIsLost(log);
    PowerLossTiles(log);
  }

  /** A sync of the second segment leaves the files of the first. */
  lemma SecondSynced(log: Log)
    requires log.Valid() && |log.parts| == |log.segments| == 2 && log.parts[0].base == 0 && log.parts[1].base == 1
    requires 0 in log.directory.durable && log.Sized() && log.size == log.page == 4096
    ensures
      var after := LastSynced(log.parts, log.Marks(), log.directory.durable, log.page, true, true);
      0 in after.1 && after.1[0] == log.directory.durable[0]
    ensures LastCompletes(log.parts, log.Marks(), log.page, true, true)
  {
    hide Log.Core, Log.OnDisk, AfterSync, MarkAfterSync;
    log.Mapped(1);
  }
}
