/**
  A crash of the log of src/mqlog.c, at any store of the one write in progress, and what mqlog_open makes
  of it. Only the last segment is written to; the segments before it are as they were when they ended. A
  rollover is a crash of a new last segment, from the state in which it was created.
*/
module MqlogCrash {
  import opened Prot
  import opened SegmentLayout
  import opened SegmentDisk
  import opened MqlogLayout
  import opened MqlogDisk
  import opened MqlogFiles
  import Shape = MbpTreeShape
  import Steps = SegmentSteps
  import Mqlog

  /** What a crash leaves of the last segment, as recovery will find it. */
  function LeftView(s: Steps.State): View {
    Reopened(s.buffer, s.index, Steps.Durable(s.claims), Steps.Stub(s))
  }

  /** What mqlog_open finds after the crash: the segments that had ended, and the last one as it was left. */
  function LeftBy(parts: seq<Part>, s: Steps.State): seq<Part>
    requires NextBase(parts) < 0x1_0000_0000_0000_0000
  {
    AllFoundAgain(parts) + [Part(NextBase(parts), LeftView(s))]
  }

  /**
    After a crash at any store, the files tile the offsets of the log again. They hold all entries of the
    ended segments and all frames of the last one whose write was complete, at most the one in flight
    besides, and nothing else but for an end marker without frames. With no frame published the last
    segment is there, and has no entries.
  */
  lemma CrashKeepsEntries(parts: seq<Part>, s: Steps.State)
    requires Tiles(parts) && !LastEmpty(parts) && NextBase(parts) < 0x1_0000_0000_0000_0000 && Steps.Serial(s)
    ensures Tiles(LeftBy(parts, s)) && Bases(LeftBy(parts, s)) == Bases(parts) + {NextBase(parts)}
    ensures Contents(LeftBy(parts, s)) ==
              Contents(parts) + if Steps.Stub(s) then [Hole] else Records(Steps.Durable(s.claims))
    ensures Steps.Durable(s.claims) <= Steps.Payloads(s.claims)
    ensures |Steps.Payloads(s.claims)| <= |Steps.Durable(s.claims)| + 1
    ensures forall i | 0 <= i < |s.claims| && s.claims[i].Complete() :: i < |Steps.Durable(s.claims)|
    ensures OnFile(s.buffer, s.index, Steps.Durable(s.claims), Steps.Stub(s))
    ensures LastEmpty(LeftBy(parts, s)) <==> Steps.Durable(s.claims) == [] && !Steps.Stub(s)
  {
    hide Steps.Serial, Steps.Durable, Steps.Stub, WellFormed, OnFile, Reopened, Contents, Entries, Tiles;
    var d := Steps.Durable(s.claims);
    Steps.CrashLeaves(s);
    OnFileSound(s.buffer, s.index, d, Steps.Stub(s));
    ReopenedEntries(s.buffer, s.index, d, Steps.Stub(s));
    FoundTiles(parts);
    PartAdded(AllFoundAgain(parts), Part(NextBase(parts), LeftView(s)));
  }

  lemma ReopenedEntries(buffer: seq<byte>, index: seq<nat>, frames: seq<Payload>, stub: bool)
    ensures Entries(Reopened(buffer, index, frames, stub)) == if stub then [Hole] else Records(frames)
  {
  }

  /** Recovery needs a slot in the ended segments as before, and in the last one for what the crash left. */
  lemma CrashSlots(parts: seq<Part>, s: Steps.State)
    requires Tiles(parts) && !LastEmpty(parts) && NextBase(parts) < 0x1_0000_0000_0000_0000
    ensures SlotsLeft(LeftBy(parts, s)) <==> SlotsLeft(parts) && LeftView(s).w.index < |s.index|
  {
    hide WellFormed, Reopened, FoundAgain;
    forall i | 0 <= i < |parts|
      ensures LeftBy(parts, s)[i].view.w.index == parts[i].view.w.index
      ensures |LeftBy(parts, s)[i].view.index| == |parts[i].view.index|
    {
      assert TiledAt(parts, i);
      FoundOnFile(parts[i].view);
      FoundIndex(parts[i].view);
    }
    if SlotsLeft(LeftBy(parts, s)) {
      forall i | 0 <= i < |parts| ensures parts[i].view.w.index < |parts[i].view.index| {
        assert LeftBy(parts, s)[i].view.w.index < |LeftBy(parts, s)[i].view.index|;
      }
      assert LeftBy(parts, s)[|parts|].view.w.index < |LeftBy(parts, s)[|parts|].view.index|;
    }
    LeftIndex(s);
  }

  lemma FoundIndex(v: View)
    ensures FoundAgain(v).index == v.index
  {
  }

  lemma LeftIndex(s: Steps.State)
    ensures LeftView(s).index == s.index
  {
  }

  /** The directory after the crash: the files of the ended segments, and those of the last one. */
  ghost predicate Crashed(files: map<nat, File>, parts: seq<Part>, s: Steps.State, owner: map<object, nat>)
    requires NextBase(parts) < 0x1_0000_0000_0000_0000
    reads set b | b in files :: files[b].buffer
    reads set b | b in files :: files[b].index
  {
    var next := NextBase(parts);
    && files.Keys == Bases(parts) + {next}
    && (forall i | 0 <= i < |parts| ::
          parts[i].base in files && FileHolds(files[parts[i].base], AllFoundAgain(parts)[i], owner))
    && next in files && files[next].buffer[..] == s.buffer && files[next].index[..] == s.index
    && files[next].buffer in owner && owner[files[next].buffer] == next
    && files[next].index in owner && owner[files[next].index] == next
  }

  lemma CrashedIsRecorded(files: map<nat, File>, parts: seq<Part>, s: Steps.State, owner: map<object, nat>)
    requires NextBase(parts) < 0x1_0000_0000_0000_0000
    requires Tiles(parts) && !LastEmpty(parts) && Steps.Serial(s) && Crashed(files, parts, s, owner)
    ensures Recorded(files, LeftBy(parts, s), owner)
  {
    hide Steps.Serial, Steps.Durable, Steps.Stub, WellFormed, OnFile, Reopened, Contents, Entries, Tiles, Bases,
      FoundAgain;
    CrashKeepsEntries(parts, s);
    OnFileBounds(s.buffer, s.index, Steps.Durable(s.claims), Steps.Stub(s));
    LastFile(files[NextBase(parts)], parts, s, owner);
  }

  lemma LastFile(file: File, parts: seq<Part>, s: Steps.State, owner: map<object, nat>)
    requires NextBase(parts) < 0x1_0000_0000_0000_0000 && HEADER_SIZE <= |s.buffer| < WORD
    requires file.buffer[..] == s.buffer && file.index[..] == s.index
    requires file.buffer in owner && owner[file.buffer] == NextBase(parts)
    requires file.index in owner && owner[file.index] == NextBase(parts)
    requires OnFile(s.buffer, s.index, Steps.Durable(s.claims), Steps.Stub(s))
    ensures FileHolds(file, Part(NextBase(parts), LeftView(s)), owner)
  {
    hide OnFile, Steps.Durable, Steps.Stub;
  }

  /**
    mqlog_open after a crash of a write: it succeeds exactly when the sizes are whole pages and every index,
    that of the last segment included, has a slot left; the log then holds all that the crash kept. This is
    so from the moment a new segment is created, before it has a frame.
  */
  method OpenAfterCrash(directory: Directory, listing: seq<Shape.Key>, size: nat, page: nat, committed: bool,
                        ghost parts: seq<Part>, ghost s: Steps.State, ghost owner: map<object, nat>)
    returns (r: Mqlog.LogOpening)
    requires IsPage(page) && 0 < size < WORD && directory !in owner && directory.Imaged()
    requires NextBase(parts) < 0x1_0000_0000_0000_0000
    requires Tiles(parts) && !LastEmpty(parts) && Steps.Serial(s) && Crashed(directory.files, parts, s, owner)
    requires Ascends(listing) && forall b: Shape.Key :: b in listing <==> b in directory.files
    modifies directory`durable
    ensures r.OpenedLog? <==>
              && size % page == 0 && InPages(LeftBy(parts, s), page)
              && SlotsLeft(parts) && LeftView(s).w.index < |s.index|
    ensures r.OpenedLog? ==>
              && r.log.Valid() && r.log.parts == LeftBy(parts, s) && r.log.stub == None && !r.log.lock.held
              && r.log.size == size && r.log.page == page && r.log.committed == committed
              && r.log.directory == directory && |r.log.segments| == |r.log.parts|
              && forall k :: !r.log.Withheld(k)
    ensures r.OpenedLog? ==>
              && directory.durable == old(directory.durable)
              && forall whole :: r.log.Agreed(whole) <==> OnDiskAsFound(LeftBy(parts, s), directory.durable, whole)
    ensures r.OpenedLog? ==>
              && fresh(r.log) && fresh(r.log.lock) && fresh(r.log.index) && fresh(r.log.index.footprint)
              && fresh(r.log.home.Keys - owner.Keys)
    ensures r.OpenedLog? ==>
              Contents(r.log.parts) ==
                Contents(parts) + if Steps.Stub(s) then [Hole] else Records(Steps.Durable(s.claims))
  {
    hide Steps.Serial, Steps.Durable, Steps.Stub, Contents, Tiles, InPages, SlotsLeft, Crashed, Recorded,
      Mqlog.Log.Core, Mqlog.Log.OnDisk, Mqlog.Log.Exact, Mqlog.Log.Withheld, Mqlog.Log.Agreed, LeftView, OnDiskAsFound,
      ClosedFirst, Bases;
    CrashKeepsEntries(parts, s);
    CrashSlots(parts, s);
    CrashedIsRecorded(directory.files, parts, s, owner);
    r := Mqlog.Open(directory, listing, size, page, committed, LeftBy(parts, s), owner);
  }

  /** Files that were just created, as a rollover leaves them, are a state from which writes and crashes go on. */
  lemma RolloverStarts(size: nat)
    requires 4096 <= size < WORD
    ensures Steps.Serial(Steps.Start(Created(size).buffer, Created(size).index, []))
    ensures LeftView(Steps.Start(Created(size).buffer, Created(size).index, [])) == Created(size)
  {
    hide Steps.Serial, IsHeader;
    CreatedOnFile(size);
    Steps.StartKeeps(Created(size).buffer, Created(size).index, []);
  }
}
