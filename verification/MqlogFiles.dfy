/**
  The directory of the log of src/mqlog.c: the files of its segments as they are mapped, what of them is
  on disk, and how segments are opened on them and first written to.
*/
module MqlogFiles {
  import opened Prot
  import opened SegmentDisk
  import opened SegmentLayout
  import opened MqlogLayout
  import Seg = Segment

  /** A data file with its index file. Both are mapped shared: the arrays are the files. */
  datatype File = File(buffer: array<byte>, index: array<nat>)

  class Directory {
    var files: map<nat, File>
    // What msync has put on disk of each file.
    ghost var durable: map<nat, Image>
    // The bases of segments whose msync fails, of the data or of the index, when they are closed by a write that
    // they refused, or by an opening that fails.
    var dataFaults: set<nat>
    var indexFaults: set<nat>

    constructor ()
      ensures files == map[] && Imaged() && dataFaults == indexFaults == {}
    {
      files, durable, dataFaults, indexFaults := map[], map[], {}, {};
    }

    ghost predicate Imaged()
      reads this`files, this`durable
    {
      && durable.Keys == files.Keys
      && forall b | b in files ::
          |durable[b].data| == files[b].buffer.Length && |durable[b].index| == files[b].index.Length
    }
  }

  class Mutex {
    var held: bool

    constructor ()
      ensures !held
    {
      held := false;
    }

    /** pthread_mutex_trylock. */
    method TryLock() returns (ok: bool)
      modifies this
      ensures ok == !old(held) && held
    {
      ok := !held;
      held := true;
    }

    method Unlock()
      modifies this
      ensures !held
    {
      held := false;
    }
  }

  datatype Opening = Opened(sgm: Seg.Segment) | ELNOPGM | ELFLEOP | ELWOFFS

  /** The page size of the machine. */
  predicate IsPage(page: nat) {
    page >= 4096 && page % 8 == 0
  }

  lemma AtLeastAPage(size: nat, page: nat)
    requires page > 0 && size > 0 && size % page == 0
    ensures size >= page
  {
    var q := size / page;
    assert size == page * q;
    assert q > 0 ==> page * q >= page;
  }

  /** New files, of zeros. */
  method CreateFiles(directory: Directory, base: nat, size: nat) returns (file: File)
    requires base !in directory.files && directory.Imaged()
    modifies directory`files, directory`durable
    ensures fresh(file.buffer) && fresh(file.index) && file.buffer.Length == size && directory.Imaged()
    ensures file.buffer[..] == Created(size).buffer && file.index[..] == Created(size).index
    ensures file.index.Length == (size + 1) / 96 && forall i | 0 <= i < file.index.Length :: file.index[i] == 0
    ensures forall i | 0 <= i < size :: file.buffer[i] == 0
    ensures base in directory.durable && |directory.durable[base].data| == size
    ensures forall i | 0 <= i < size :: directory.durable[base].data[i] == 0
    ensures forall i | 0 <= i < |directory.durable[base].index| :: directory.durable[base].index[i] == 0
    ensures directory.files == old(directory.files)[base := file]
    ensures directory.durable == old(directory.durable)[base := Zeroed(size)]
  {
    var buffer := new byte[size](_ => 0);
    var index := new nat[Capacity(size)](_ => 0);
    file := File(buffer, index);
    directory.files := directory.files[base := file];
    directory.durable := directory.durable[base := Zeroed(size)];
  }

  /**
    segment_open: the size must be a whole number of pages; the files are created when there are none,
    and must have that size when there are.
  */
  method OpenSegment(directory: Directory, base: nat, size: nat, page: nat, committed: bool,
                     ghost frames: seq<Payload>, ghost stub: bool)
    returns (r: Opening)
    requires HEADER_SIZE <= size < WORD && page > 0 && directory.Imaged()
    requires base in directory.files ==>
               OnFile(directory.files[base].buffer[..], directory.files[base].index[..], frames, stub)
    requires base !in directory.files ==> frames == [] && !stub
    modifies (if base in directory.files then {} else {directory})`files
    modifies (if base in directory.files then {} else {directory})`durable
    ensures directory.Imaged()
    ensures base in old(directory.files) || r == Opening.ELNOPGM ==>
              directory.files == old(directory.files) && directory.durable == old(directory.durable)
    ensures r == Opening.ELNOPGM <==> size % page != 0
    ensures r == ELFLEOP <==>
              size % page == 0 && base in old(directory.files) && old(directory.files)[base].buffer.Length != size
    ensures r == ELWOFFS <==>
              r != Opening.ELNOPGM && r != ELFLEOP && Capacity(size) <= |frames| + if stub then 1 else 0
    ensures r.Opened? ==>
              var sgm := r.sgm;
              && fresh(sgm) && sgm.Valid() && sgm.base == base && sgm.committed == committed
              && directory.files == old(directory.files)[base := File(sgm.buffer, sgm.index)]
              && sgm.ViewOf() == Reopened(sgm.buffer[..], sgm.index[..], frames, stub)
              && sgm.MarkOf() == Mark(sgm.ViewOf().w, |frames|) && sgm.buffer.Length == size
    ensures r.Opened? && base !in old(directory.files) ==>
              && fresh(r.sgm.buffer) && fresh(r.sgm.index) && r.sgm.ViewOf() == Created(size)
              && directory.durable == old(directory.durable)[base := Zeroed(size)]
  {
    hide OnFile, WellFormed, Seg.Segment.Valid, Created, Zeroed;
    if size % page != 0 {
      return Opening.ELNOPGM;
    }
    if base in directory.files {
      var file := directory.files[base];
      if file.buffer.Length != size {
        return ELFLEOP;
      }
      OnFileCapacity(file.buffer[..], file.index[..], frames, stub);
      var sgm := Seg.Open(file.buffer, file.index, base, committed, frames, stub);
      if sgm.None? {
        return ELWOFFS;
      }
      ReopenedIndex(file.buffer[..], file.index[..], frames, stub);
      return Opened(sgm.value);
    }
    CreatedOnFile(size);
    var file := CreateFiles(directory, base, size);
    var sgm := Seg.Open(file.buffer, file.index, base, committed, [], false);
    if sgm.None? {
      return ELWOFFS;
    }
    return Opened(sgm.value);
  }

  lemma OnFileCapacity(buffer: seq<byte>, index: seq<nat>, frames: seq<Payload>, stub: bool)
    requires OnFile(buffer, index, frames, stub)
    ensures |index| == Capacity(|buffer|)
  {
  }

  lemma Slots(size: nat)
    requires size >= 4096
    ensures Capacity(size) >= 42
  {
  }

  lemma ReopenedIndex(buffer: seq<byte>, index: seq<nat>, frames: seq<Payload>, stub: bool)
    requires OnFile(buffer, index, frames, stub)
    ensures Reopened(buffer, index, frames, stub).w.index == |frames| + if stub then 1 else 0
  {
  }

  /** The first write to a segment that was created or found for it. It fails when no segment takes the payload. */
  method WriteFirst(sgm: Seg.Segment, buf: Payload, ghost stub: bool) returns (ok: bool)
    requires sgm.Valid() && 4096 <= sgm.buffer.Length < WORD && sgm.MarkOf() == Mark(sgm.ViewOf().w, 0)
    requires sgm.ViewOf() ==
               if stub then Reopened(sgm.buffer[..], sgm.index[..], [], true) else Created(sgm.buffer.Length)
    modifies if stub then {} else {sgm, sgm.buffer, sgm.index}
    ensures sgm.Valid() && WellFormed(sgm.ViewOf()) && sgm.MarkOf() == old(sgm.MarkOf())
    ensures ok <==> !stub && |buf| + 2 * HEADER_SIZE <= sgm.buffer.Length
    ensures ok ==> sgm.ViewOf().w.index > 0 && Entries(sgm.ViewOf()) == [Record(buf)]
    ensures ok ==> forall whole :: Agrees(sgm.ViewOf(), sgm.MarkOf(), Zeroed(sgm.buffer.Length), whole)
    ensures !ok ==> OnFile(sgm.buffer[..], sgm.index[..], [], true) && EndedAtOnce(sgm.ViewOf(), sgm.MarkOf())
    ensures !ok && !stub ==> StubImage(sgm.buffer[..], sgm.index[..], Zeroed(sgm.buffer.Length))
  {
    hide WellFormed, SyncedTo, OnFile, PutFrame, PutEos, Flags, Agrees, StubImage, Zeroed;
    Slots(sgm.buffer.Length);
    InBounds(sgm.ViewOf());
    if stub {
      EndedIsMarked(sgm.ViewOf());
    }
    var r := sgm.Write(buf);
    CloseLeaves(sgm.ViewOf());
    ok := r != Seg.ELEOS;
    if ok {
      FirstAgrees(sgm.buffer.Length, buf);
    } else {
      ZeroedStubImage(sgm.buffer[..], sgm.index[..], sgm.buffer.Length);
    }
  }

  /** What is on disk of a segment after its first write is what it was created with. */
  lemma FirstAgrees(size: nat, p: Payload)
    requires 4096 <= size < WORD && |p| + 2 * HEADER_SIZE <= size
    ensures Fits(Created(size), |p|) && Created(size).w.index < |Created(size).index|
    ensures forall whole :: Agrees(AfterWrite(Created(size), p), Mark(Position(0, 0), 0), Zeroed(size), whole)
  {
    hide WellFormed, SyncedTo, Sound, DataSafe, PutFrame, Zeroed;
    Slots(size);
    CreatedSound(size);
    CreatedSynced(size);
    WriteKeepsSafe(Created(size), p, Mark(Position(0, 0), 0), Zeroed(size));
    SoundIsSafe(Created(size), Mark(Position(0, 0), 0), Zeroed(size));
  }

  lemma CreatedAtZero(size: nat)
    ensures Created(size).w == Position(0, 0)
  {
  }

  lemma CreatedSynced(size: nat)
    requires HEADER_SIZE <= size < WORD
    ensures SyncedTo(Created(size), Position(0, 0), 0) && WellFormed(Created(size)) && !Created(size).eos
  {
    CreatedOnFile(size);
  }

  lemma SoundIsSafe(v: View, m: Mark, d: Image)
    requires Sound(v, m, d)
    ensures DataSafe(v, m, d)
  {
  }

  /** The files of one segment, as it will be recovered. Every array is the mapping of one file. */
  ghost predicate FileHolds(file: File, part: Part, owner: map<object, nat>)
    reads file.buffer, file.index
  {
    && HEADER_SIZE <= file.buffer.Length < WORD
    && file.buffer in owner && owner[file.buffer] == part.base && file.index in owner && owner[file.index] == part.base
    && OnFile(file.buffer[..], file.index[..], part.view.frames, part.view.stub)
    && part.view == Reopened(file.buffer[..], file.index[..], part.view.frames, part.view.stub)
  }

  /** A directory with the files of `parts` and nothing else. */
  ghost predicate Recorded(files: map<nat, File>, parts: seq<Part>, owner: map<object, nat>)
    reads set b | b in files :: files[b].buffer
    reads set b | b in files :: files[b].index
  {
    && Tiles(parts) && files.Keys == Bases(parts)
    && forall i | 0 <= i < |parts| :: parts[i].base in files && FileHolds(files[parts[i].base], parts[i], owner)
  }

  /** Segment and mapped files have place `i` in the log. */
  ghost predicate Homed(sgm: Seg.Segment, home: map<object, nat>, i: nat) {
    && sgm in home && home[sgm] == i
    && sgm.buffer in home && home[sgm.buffer] == i
    && sgm.index in home && home[sgm.index] == i
  }

  function WithHome(home: map<object, nat>, sgm: Seg.Segment, n: nat): map<object, nat> {
    home[sgm := n][sgm.buffer := n][sgm.index := n]
  }

  /** A segment without a place gets one, and takes nobody's. */
  lemma HomeGiven(home: map<object, nat>, sgm: Seg.Segment, n: nat)
    requires sgm in home ==> home[sgm] == n
    requires sgm.buffer in home ==> home[sgm.buffer] == n
    requires sgm.index in home ==> home[sgm.index] == n
    ensures Homed(sgm, WithHome(home, sgm, n), n)
    ensures forall other: Seg.Segment, i: nat | i < n && Homed(other, home, i) ::
              Homed(other, WithHome(home, sgm, n), i)
  {
  }

  /** A write to a segment, by what it does to its view. */
  method WriteTo(sgm: Seg.Segment, buf: Payload, ghost part: Part, ghost committed: bool) returns (r: Seg.WriteResult)
    requires Keeps(sgm, part, committed)
    requires part.view.w.data <= |part.view.buffer| < WORD
    requires part.view.w.data + HEADER_SIZE <= |part.view.buffer| || MarkedEos(part.view)
    requires !MarkedEos(part.view) && Fits(part.view, |buf|) ==> part.view.w.index < |part.view.index|
    modifies sgm, sgm.buffer, sgm.index
    ensures Keeps(sgm, Part(part.base, Tried(part.view, buf)), committed) && sgm.MarkOf() == old(sgm.MarkOf())
    ensures r == if !MarkedEos(part.view) && Fits(part.view, |buf|) then Seg.Written(|buf|) else Seg.ELEOS
  {
    hide Seg.Segment.Valid, Fits, PutFrame, PutEos, Flags;
    r := sgm.Write(buf);
  }

  /** An array that has a place in the log maps the file of that place. */
  ghost predicate OwnersAgree(home: map<object, nat>, owner: map<object, nat>, parts: seq<Part>) {
    forall o | o in home && o in owner :: home[o] < |parts| && owner[o] == parts[home[o]].base
  }

  lemma NothingOwned(owner: map<object, nat>)
    ensures OwnersAgree(map[], owner, [])
  {
  }

  lemma OwnersKept(home: map<object, nat>, owner: map<object, nat>, parts: seq<Part>, sgm: Seg.Segment, part: Part)
    requires OwnersAgree(home, owner, parts) && sgm !in owner
    requires sgm.buffer in owner && owner[sgm.buffer] == part.base && sgm.index in owner
             && owner[sgm.index] == part.base
    requires forall i | 0 <= i < |parts| :: parts[i].base < part.base
    ensures OwnersAgree(WithHome(home, sgm, |parts|), owner, parts + [part])
    ensures sgm.buffer !in home && sgm.index !in home
  {
  }

  ghost predicate Keeps(sgm: Seg.Segment, part: Part, committed: bool)
    reads sgm, sgm.buffer, sgm.index
  {
    sgm.Valid() && sgm.ViewOf() == part.view && sgm.base == part.base && sgm.committed == committed
  }

  lemma KeepsNow(sgm: Seg.Segment, part: Part, committed: bool)
    requires sgm.Valid() && sgm.ViewOf() == part.view && sgm.base == part.base && sgm.committed == committed
    ensures Keeps(sgm, part, committed)
  {
  }
}
