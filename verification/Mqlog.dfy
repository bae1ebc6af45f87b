/**
  The log of src/mqlog.c: segments found through a B+tree of their base offsets, written one after
  the other under a mutex.
*/
module Mqlog {
  import opened Prot
  import opened SegmentDisk
  import opened SegmentLayout
  import opened MqlogFiles
  import opened MqlogLayout
  import opened MqlogDisk
  import Shape = MbpTreeShape
  import Facts = MbpTreeFacts
  import opened MbpTree
  import Seg = Segment

  const BRANCH_FACTOR := 7

  /** ELFLEOP is the code of segment_open when the next files are there already, but have another size. */
  datatype WriteResult = Written(size: nat) | ELNOWCP | ELLOCK | ELFLEOP

  /** A read hands out a place in the mapped file; nothing is copied. */
  datatype ReadResult = Frame(buffer: array<byte>, at: nat, length: nat) | ELNORD | ELEOS | ELINVHD | READ_ELLOCK

  /** What is handed out is all of `p`. */
  ghost predicate HandsOut(r: ReadResult, p: Payload)
    reads if r.Frame? then {r.buffer} else {}
  {
    r.Frame? && r.length == |p| && r.at + r.length <= r.buffer.Length && r.buffer[r.at..r.at + r.length] == p
  }

  class Log {
    const size: nat
    const page: nat
    const committed: bool
    const directory: Directory
    const index: Tree<Seg.Segment>
    const lock: Mutex
    ghost var segments: seq<Seg.Segment>
    ghost var parts: seq<Part>
    // The files left by a payload that no segment takes. They are on the directory, but not in the index.
    ghost var stub: Option<File>
    // Every segment and mapped file, with the place it has in the log.
    ghost var home: map<object, nat>

    constructor (size: nat, page: nat, committed: bool, directory: Directory)
      ensures Core() && parts == [] && segments == [] && stub == None && home == map[] && !lock.held
      ensures this.size == size && this.page == page && this.committed == committed && this.directory == directory
      ensures fresh(index) && fresh(index.footprint) && fresh(lock)
    {
      this.size, this.page, this.committed, this.directory := size, page, committed, directory;
      index := new Tree(BRANCH_FACTOR);
      lock := new Mutex();
      segments, parts, stub, home := [], [], None, map[];
    }

    /** Segment `i` holds what `parts` says, and shares nothing with the others. */
    ghost predicate At(i: nat)
      requires i < |segments| == |parts|
      reads this`segments, this`parts, this`home, home.Keys
    {
      Homed(segments[i], home, i) && Keeps(segments[i], parts[i], committed)
    }

    ghost predicate Apart()
      reads this`home, index
    {
      && this !in home && index !in home && directory !in home && lock !in home && index.footprint !! home.Keys
      && this !in index.footprint && directory !in index.footprint && lock !in index.footprint
    }

    /** The index leads to every segment by its base. */
    ghost predicate Finds()
      reads this`segments, this`parts, index, index.footprint
    {
      && index.Valid() && index.exclusiveLock == 0 && index.sharedLock == 0 && index.branchFactor == 7
      && |index.contents| == |segments| == |parts|
      && forall i | 0 <= i < |parts| :: index.contents[i] == Shape.Pair(parts[i].base, segments[i])
    }

    ghost predicate Core()
      reads this`segments, this`parts, this`home, index, index.footprint, home.Keys
    {
      && Apart() && Finds() && Tiles(parts)
      && forall i | 0 <= i < |parts| :: At(i)
    }

    /** All of `Core` but for the index. */
    ghost predicate Placed()
      reads this`segments, this`parts, this`home, index, home.Keys
    {
      && Apart() && Tiles(parts) && |segments| == |parts|
      && forall i | 0 <= i < |parts| :: At(i)
    }

    ghost predicate StubOnDisk()
      requires stub.Some?
      reads this`parts, this`stub, this`home, directory, home.Keys
    {
      var file, base := stub.value, NextBase(parts);
      && base < 0x1_0000_0000_0000_0000 && !LastEmpty(parts)
      && base in directory.files && directory.files[base] == file && base in directory.durable
      && file.buffer in home && home[file.buffer] == |parts| && file.index in home && home[file.index] == |parts|
      && file.buffer.Length == size && OnFile(file.buffer[..], file.index[..], [], true)
      && StubImage(file.buffer[..], file.index[..], directory.durable[base])
      && (parts != [] ==> LastInBounds(parts) && MarkedEos(parts[|parts| - 1].view))
    }

    /** The directory has the files of every segment and of the stub. */
    ghost predicate OnDisk()
      requires |segments| == |parts|
      reads this, directory, home.Keys
    {
      Covers() && directory.Imaged() && (stub.Some? ==> StubOnDisk())
    }

    /** And of nothing else. */
    ghost predicate Exact()
      reads this`parts, this`stub, directory`files
    {
      directory.files.Keys == Bases(parts) + (if stub.Some? then {NextBase(parts)} else {})
    }

    ghost predicate Covers()
      requires |segments| == |parts|
      reads this`segments, this`parts, directory
    {
      && IsPage(page) && page <= size < WORD && size % page == 0
      && forall i | 0 <= i < |parts| ::
          && segments[i].buffer.Length % page == 0 && parts[i].base in directory.files
          && directory.files[parts[i].base] == File(segments[i].buffer, segments[i].index)
    }

    /** What closing needs: a log that is not loaded as a whole has it, too. */
    ghost predicate Held()
      reads this, index, index.footprint, home.Keys, directory
    {
      Core() && OnDisk()
    }

    ghost predicate Valid()
      reads this, index, index.footprint, home.Keys, directory
    {
      Held() && Exact()
    }

    // What of the log is on disk.

    /** The sync mark of every segment. */
    ghost function Marks(): (marks: seq<Mark>)
      reads this`segments, segments
      ensures |marks| == |segments| && forall i | 0 <= i < |marks| :: marks[i] == segments[i].MarkOf()
    {
      var all := segments;
      seq(|all|, i requires 0 <= i < |all| reads all => all[i].MarkOf())
    }

    /** The files on disk are what the marks say. */
    ghost predicate Agreed(whole: bool)
      reads this`segments, this`parts, segments, directory
    {
      AllAgree(parts, Marks(), directory.durable, whole)
    }

    lemma LastOffset()
      requires Core() && parts != []
      ensures |segments| == |parts| && segments[|parts| - 1].WriteOffset() == NextBase(parts)
    {
      hide Tree.Valid, Seg.Segment.Valid, Tiles;
      assert At(|parts| - 1);
    }

    /** An attempt to write to the last segment leaves what is on disk of it as good as it was. */
    lemma AttemptAgrees(buf: Payload, whole: bool)
      requires Core() && parts != [] && LastHasSlot(parts, |buf|) && Agreed(whole)
      ensures
        var v := parts[|parts| - 1].view;
        && v.w.data <= |v.buffer| < WORD && (v.w.data + HEADER_SIZE <= |v.buffer| || MarkedEos(v))
        && (!MarkedEos(v) && Fits(v, |buf|) ==> v.w.index < |v.index|)
        && AllAgree(WithLast(parts, Tried(v, buf)), Marks(), directory.durable, whole)
    {
      hide Tree.Valid, WellFormed, SyncedTo, Contents, Fits, Flags, Tiles, Extends, Tried, Agrees;
      var n := |parts| - 1;
      assert At(n) && AgreesAt(parts, Marks(), directory.durable, n, whole);
      LastTried(parts, buf);
      TriedAgrees(parts[n].view, buf, Marks()[n], directory.durable[parts[n].base], whole);
      AgreeChanged(parts, WithLast(parts, Tried(parts[n].view, buf)), Marks(), Marks(), directory.durable,
                   directory.durable, n, whole);
    }

    /** A write to the last segment, which must have an index slot for it. */
    method WriteLast(sgm: Seg.Segment, buf: Payload) returns (r: Seg.WriteResult)
      requires Core() && parts != [] && sgm == segments[|parts| - 1]
      requires LastHasSlot(parts, |buf|)
      modifies this`parts, sgm, sgm.buffer, sgm.index
      ensures Core() && |parts| == |old(parts)| && parts[..|parts| - 1] == old(parts)[..|parts| - 1]
      ensures Extends(old(parts), parts) && Marks() == old(Marks())
      ensures parts == WithLast(old(parts), parts[|parts| - 1].view)
      ensures forall whole | old(Agreed(whole)) :: Agreed(whole)
      ensures old(LastTakes(parts, |buf|)) ==>
                && r == Seg.Written(|buf|) && Contents(parts) == Contents(old(parts)) + [Record(buf)]
                && !LastEmpty(parts)
      ensures !old(LastTakes(parts, |buf|)) ==>
                && r == Seg.ELEOS && Contents(parts) == Contents(old(parts)) && NextBase(parts) == NextBase(old(parts))
                && LastInBounds(parts) && MarkedEos(parts[|parts| - 1].view)
    {
      hide Tree.Valid, WellFormed, Contents, Fits, Flags, Keeps, Tiles, Extends, Tried, LastHasSlot, AllAgree;
      ghost var n, v := |parts| - 1, parts[|parts| - 1].view;
      assert At(n);
      LastTried(parts, buf);
      forall whole | Agreed(whole)
        ensures AllAgree(WithLast(parts, Tried(v, buf)), Marks(), directory.durable, whole)
      {
        AttemptAgrees(buf, whole);
      }
      r := WriteTo(sgm, buf, parts[n], committed);
      parts := WithLast(parts, Tried(v, buf));
      forall i | 0 <= i <= n ensures At(i) {
        assert old(At(i));
      }
    }

    /** The last segment is done with: nothing more will be written to it. */
    ghost predicate Full()
      reads this`parts
    {
      parts != [] ==> LastInBounds(parts) && MarkedEos(parts[|parts| - 1].view)
    }

    /** The last segment has the size that new segments get. It may have another one when it was loaded. */
    ghost predicate Sized()
      reads this`segments
    {
      segments != [] ==> segments[|segments| - 1].buffer.Length == size
    }

    /**
      The files at the next base are there already: an earlier write left its stub, or the last segment
      has no entries, and so the base of the next one.
    */
    ghost predicate Left()
      reads this`parts, this`stub
    {
      stub.Some? || LastEmpty(parts)
    }

    lemma LeftFiles()
      requires Valid()
      ensures NextBase(parts) in directory.files <==> Left()
      ensures Left() && Full() ==>
                var file := directory.files[NextBase(parts)];
                && OnFile(file.buffer[..], file.index[..], [], true)
                && (file.buffer.Length == size <==> !LastEmpty(parts) || Sized())
    {
      hide Tree.Valid, Seg.Segment.Valid, WellFormed, OnFile, Flags, StubImage;
      if LastEmpty(parts) {
        assert At(|parts| - 1) && TiledAt(parts, |parts| - 1);
        if Full() {
          FullAndEmpty(parts[|parts| - 1].view);
        }
      } else {
        NextIsNew(parts);
      }
    }

    /** A segment that may join the log at its end: its objects have no other place. */
    ghost predicate Joins(sgm: Seg.Segment)
      reads this`parts, this`home, index
    {
      && (sgm in home ==> home[sgm] == |parts|)
      && (sgm.buffer in home ==> home[sgm.buffer] == |parts|)
      && (sgm.index in home ==> home[sgm.index] == |parts|)
      && {sgm, sgm.buffer, sgm.index} !! {this, index, directory, lock}
      && {sgm, sgm.buffer, sgm.index} !! index.footprint
      && sgm.base == NextBase(parts) && sgm.committed == committed
    }

    /** Its files are there. */
    ghost predicate Ready(sgm: Seg.Segment)
      reads this`segments, this`parts, this`home, index, directory
    {
      && Joins(sgm) && sgm.buffer.Length == size && |segments| == |parts| && Covers() && directory.Imaged()
      && directory.files.Keys == Bases(parts) + {NextBase(parts)}
      && directory.files[NextBase(parts)] == File(sgm.buffer, sgm.index)
      && directory.durable[NextBase(parts)] == Zeroed(size)
    }

    /** The segment that create_segment has opened at the next base. */
    ghost predicate Opens(sgm: Seg.Segment)
      reads this`parts, sgm, sgm.buffer, sgm.index, directory
    {
      && sgm.Valid() && sgm.base == NextBase(parts) && sgm.committed == committed && sgm.buffer.Length == size
      && NextBase(parts) in directory.files && directory.files[NextBase(parts)] == File(sgm.buffer, sgm.index)
    }

    lemma Separate()
      requires Core()
      ensures |segments| == |parts| && Tiles(parts)
      ensures {this, index, directory, lock} !! home.Keys && index.footprint !! home.Keys
      ensures {this, directory, lock} !! index.footprint
    {
      hide Tree.Valid, At, Tiles;
    }

    /** What was just allocated has no place in the log. */
    twostate lemma NewJoins(new sgm: Seg.Segment)
      requires fresh(sgm) && fresh(sgm.buffer) && fresh(sgm.index)
      requires home == old(home) && index.footprint == old(index.footprint)
      requires sgm.base == NextBase(parts) && sgm.committed == committed
      ensures Joins(sgm)
    {
    }

    twostate lemma NewReady(new sgm: Seg.Segment)
      requires |segments| == |parts| && parts == old(parts) && segments == old(segments) && stub == old(stub)
      requires old(OnDisk()) && old(Exact()) && !Left() && Joins(sgm) && sgm.buffer.Length == size && directory.Imaged()
      requires NextBase(parts) !in old(directory.files)
      requires directory.files == old(directory.files)[NextBase(parts) := File(sgm.buffer, sgm.index)]
      requires directory.durable == old(directory.durable)[NextBase(parts) := Zeroed(size)]
      ensures Ready(sgm)
    {
      hide Bases, Joins, Zeroed, Directory.Imaged;
    }

    lemma PagesFit()
      requires |segments| == |parts| && OnDisk()
      ensures IsPage(page) && 4096 <= size < WORD && size % page == 0 && directory.Imaged()
    {
      hide Bases, Directory.Imaged, StubOnDisk;
    }

    /** create_segment after the last one: on new files, or on those that are there already. */
    method CreateSegment(base: nat) returns (r: Opening)
      requires Valid() && Full() && base == NextBase(parts)
      modifies (if Left() then {} else {directory})`files, (if Left() then {} else {directory})`durable
      ensures Core() && (r.Opened? || r == Opening.ELFLEOP) && 4096 <= size < WORD && Marks() == old(Marks())
      ensures r.Opened? <==> !LastEmpty(parts) || Sized()
      ensures r.Opened? ==> fresh(r.sgm) && r.sgm.base == base && r.sgm.buffer.Length == size
      ensures r.Opened? ==> Opens(r.sgm) && r.sgm.MarkOf() == Mark(r.sgm.ViewOf().w, 0)
      ensures r.Opened? ==>
                r.sgm.ViewOf() ==
                    if Left() then Reopened(r.sgm.buffer[..], r.sgm.index[..], [], true) else Created(size)
      ensures !Left() ==> r.Opened? && fresh(r.sgm.buffer) && fresh(r.sgm.index) && Ready(r.sgm)
      ensures !Left() ==> directory.durable == old(directory.durable)[base := Zeroed(size)]
      ensures !Left() ==> r.sgm.MarkOf() == Mark(Position(0, 0), 0)
    {
      hide Core, Seg.Segment.Valid, Seg.Segment.ViewOf, WellFormed, OnFile, Contents, Entries, Flags, Reopened,
        Created, StubImage, Zeroed, Marks, Seg.Segment.MarkOf, Joins, Ready, OnDisk, Exact, Directory.Imaged;
      Separate();
      PagesFit();
      LeftFiles();
      Slots(size);
      CreatedAtZero(size);
      r := OpenSegment(directory, base, size, page, committed, [], Left());
      if !Left() {
        var sgm := r.sgm;
        NewJoins(sgm);
        NewReady(sgm);
      }
    }

    /** The first write to a segment that was created. With the files of an earlier one it fails, and stores nothing. */
    method WriteCreated(sgm: Seg.Segment, buf: Payload) returns (ok: bool)
      requires Core() && Opens(sgm) && sgm.MarkOf() == Mark(sgm.ViewOf().w, 0) && (Left() || Ready(sgm))
      requires sgm.ViewOf() == if Left() then Reopened(sgm.buffer[..], sgm.index[..], [], true) else Created(size)
      requires 4096 <= size < WORD && sgm !in segments
      modifies if Left() then {} else {sgm, sgm.buffer, sgm.index}
      ensures Core() && Opens(sgm) && WellFormed(sgm.ViewOf()) && sgm.MarkOf() == old(sgm.MarkOf())
      ensures Marks() == old(Marks())
      ensures ok <==> !Left() && |buf| + 2 * HEADER_SIZE <= size
      ensures ok ==> sgm.ViewOf().w.index > 0 && Entries(sgm.ViewOf()) == [Record(buf)]
      ensures ok ==> forall whole :: Agrees(sgm.ViewOf(), sgm.MarkOf(), Zeroed(size), whole)
      ensures !ok ==> OnFile(sgm.buffer[..], sgm.index[..], [], true) && EndedAtOnce(sgm.ViewOf(), sgm.MarkOf())
      ensures !ok && !Left() ==> StubImage(sgm.buffer[..], sgm.index[..], Zeroed(size))
    {
      hide Tree.Valid, Seg.Segment.Valid, Seg.Segment.ViewOf, WellFormed, OnFile, Entries, Created, Reopened,
        EndedAtOnce, StubImage, Zeroed, Agrees, Directory.Imaged, Marks, Seg.Segment.MarkOf;
      ok := WriteFirst(sgm, buf, Left());
      forall i | 0 <= i < |parts| ensures At(i) {
        assert old(At(i));
      }
    }

    lemma InHome()
      requires Core()
      ensures |segments| == |parts| && forall i | 0 <= i < |segments| :: segments[i] in home
    {
      hide Tree.Valid, Keeps, Tiles;
      forall i | 0 <= i < |segments| ensures segments[i] in home {
        assert At(i);
      }
    }

    /** A new segment takes the place after the last one. */
    ghost method Place(sgm: Seg.Segment, part: Part)
      requires Placed() && Joins(sgm) && Keeps(sgm, part, committed)
      requires part.base == NextBase(parts) && WellFormed(part.view) && !LastEmpty(parts)
      modifies this`segments, this`parts, this`home
      ensures Placed() && segments == old(segments) + [sgm] && parts == old(parts) + [part]
      ensures home == WithHome(old(home), sgm, |old(parts)|)
      ensures Bases(parts) == Bases(old(parts)) + {part.base}
    {
      hide Tree.Valid, Keeps, WellFormed, Covers, Bases, Tiles, Homed;
      ghost var n := |parts|;
      HomeGiven(home, sgm, n);
      PartAdded(parts, part);
      segments, parts := segments + [sgm], parts + [part];
      home := WithHome(home, sgm, n);
      forall i | 0 <= i <= n ensures At(i) {
        assert i < n ==> old(At(i));
      }
    }

    /** A segment goes to the end of the index. */
    method Join(sgm: Seg.Segment, ghost part: Part)
      requires Core() && Joins(sgm) && Keeps(sgm, part, committed) && sgm.base == part.base && WellFormed(part.view)
      requires !LastEmpty(parts)
      modifies this`segments, this`parts, this`home, index, index.footprint
      ensures Core() && fresh(index.footprint - old(index.footprint))
      ensures segments == old(segments) + [sgm] && parts == old(parts) + [part] && |segments| == |parts|
      ensures home == WithHome(old(home), sgm, |old(parts)|)
      ensures Marks() == old(Marks()) + [old(sgm.MarkOf())] && sgm.MarkOf() == old(sgm.MarkOf())
      ensures sgm.ViewOf() == old(sgm.ViewOf()) && stub == old(stub)
      ensures directory.durable == old(directory.durable)
      ensures directory.files == old(directory.files) && Bases(parts) == Bases(old(parts)) + {part.base}
    {
      hide Tree.Valid, WellFormed, Keeps, Tiles, Bases;
      BelowNext(parts);
      InHome();
      var rc := index.Append(sgm.base, sgm);
      Place(sgm, part);
    }

    twostate lemma Joined(sgm: Seg.Segment)
      requires old(Ready(sgm)) && old(stub).None? && stub.None? && |segments| == |parts| && |parts| == |old(parts)| + 1
      requires segments == old(segments) + [sgm] && parts[..|old(parts)|] == old(parts)
      requires parts[|old(parts)|].base == old(NextBase(parts)) && directory.files == old(directory.files)
      requires Bases(parts) == old(Bases(parts)) + {parts[|old(parts)|].base}
      requires directory.durable == old(directory.durable)
      ensures OnDisk() && Exact()
    {
      hide Bases, Joins, Zeroed;
      forall i | 0 <= i < |old(parts)| ensures parts[i] == old(parts)[i] {
        assert parts[..|old(parts)|][i] == old(parts)[i];
      }
    }

    /** A segment that took its first payload goes to the end of the index. */
    method AddSegment(sgm: Seg.Segment)
      requires Core() && Ready(sgm) && !Left() && Opens(sgm)
      requires NextBase(parts) < 0x1_0000_0000_0000_0000 && WellFormed(sgm.ViewOf()) && sgm.ViewOf().w.index > 0
      modifies this`segments, this`parts, this`home, index, index.footprint
      ensures Valid() && fresh(index.footprint - old(index.footprint)) && Marks() == old(Marks()) + [sgm.MarkOf()]
      ensures segments == old(segments) + [sgm] && parts == old(parts) + [Part(sgm.base, sgm.ViewOf())]
      ensures |segments| == |parts| && stub == old(stub) && directory.durable == old(directory.durable)
      ensures Sized() && !LastEmpty(parts)
      ensures home.Keys == old(home.Keys) + {sgm, sgm.buffer, sgm.index}
    {
      hide Core, Seg.Segment.Valid, Seg.Segment.ViewOf, WellFormed, Keeps, Bases, OnDisk, Exact, Marks,
        Seg.Segment.MarkOf, Covers, Joins;
      ghost var part := Part(sgm.base, sgm.ViewOf());
      KeepsNow(sgm, part, committed);
      Join(sgm, part);
      Joined(sgm);
    }

    /** The files of a segment that took no payload stay behind on the directory. */
    ghost method KeepStub(sgm: Seg.Segment)
      requires NextBase(parts) < 0x1_0000_0000_0000_0000 && !Left()
      requires Core() && Ready(sgm) && Full() && OnFile(sgm.buffer[..], sgm.index[..], [], true)
      requires StubImage(sgm.buffer[..], sgm.index[..], Zeroed(size))
      modifies this`stub, this`home
      ensures Valid() && stub.Some? && home.Keys == old(home.Keys) + {sgm.buffer} + {sgm.index}
      ensures Marks() == old(Marks())
    {
      hide Tree.Valid, Seg.Segment.Valid, Seg.Segment.ViewOf, WellFormed, OnFile, MarkedEos, Tiles, Bases, StubImage,
        Zeroed, Marks, Covers;
      stub := Some(File(sgm.buffer, sgm.index));
      home := home[sgm.buffer := |parts|][sgm.index := |parts|];
      forall i | 0 <= i < |parts| ensures At(i) {
        assert old(At(i));
      }
    }

    /** msync has put something else on disk of one of the files. */
    ghost method Flush(b: nat, d: Image)
      requires Held() && b in directory.files
      requires |d.data| == directory.files[b].buffer.Length && |d.index| == directory.files[b].index.Length
      requires stub.Some? && b == NextBase(parts) ==> StubImage(stub.value.buffer[..], stub.value.index[..], d)
      modifies directory`durable
      ensures Held() && directory.durable == old(directory.durable)[b := d]
    {
      hide Tree.Valid, At, Tiles, OnFile, MarkedEos, Bases, StubImage;
      directory.durable := directory.durable[b := d];
    }

    /** What is flushed of such a segment is an end marker at the most. */
    lemma DroppedAgrees(v: View, m: Mark, dataOk: bool, indexOk: bool)
      requires Valid() && Left() && Full() && EndedAtOnce(v, m) && NextBase(parts) in directory.files
      requires v.buffer == directory.files[NextBase(parts)].buffer[..]
      requires v.index == directory.files[NextBase(parts)].index[..]
      requires NextBase(parts) in directory.durable && |segments| == |parts|
      ensures
        var d := directory.durable[NextBase(parts)];
        var after := AfterSync(v, m, page, dataOk, indexOk, d);
        && |after.data| == |v.buffer| && |after.index| == |v.index|
        && (stub.Some? ==> StubImage(stub.value.buffer[..], stub.value.index[..], after))
    {
      hide Core, MarkedEos, Bases, StubImage, AfterSync, EndedAtOnce, OnFile;
      var d := directory.durable[NextBase(parts)];
      AfterSyncSize(v, m, page, dataOk, indexOk, d);
      if stub.Some? {
        StubUnindexed(v.buffer, v.index);
        StubImageSynced(v, m, page, dataOk, indexOk, d);
      }
    }

    lemma DroppedKeeps(v: View, m: Mark, dataOk: bool, indexOk: bool, whole: bool)
      requires Valid() && Left() && Full() && Agreed(whole)
      requires NextBase(parts) in directory.files && NextBase(parts) in directory.durable && |segments| == |parts|
      requires v.buffer == directory.files[NextBase(parts)].buffer[..]
      requires v.index == directory.files[NextBase(parts)].index[..]
      requires stub.None? ==> v == Reopened(v.buffer, v.index, [], true) && m == Mark(v.w, 0)
      ensures
        var d := directory.durable[NextBase(parts)];
        var after := AfterSync(v, m, page, dataOk, indexOk, d);
        AllAgree(parts, Marks(), directory.durable[NextBase(parts) := after], whole)
    {
      hide Tree.Valid, MarkedEos, Bases, AfterSync, WellFormed, SyncedTo, StubImage, OnFile, Agrees, Reopened;
      var d := directory.durable[NextBase(parts)];
      var after := AfterSync(v, m, page, dataOk, indexOk, d);
      if stub.Some? {
        BelowNext(parts);
        AgreeBesides(parts, Marks(), directory.durable, directory.durable[NextBase(parts) := after], NextBase(parts),
                     whole);
      } else {
        var n := |parts| - 1;
        assert At(n) && TiledAt(parts, n) && AgreesAt(parts, Marks(), directory.durable, n, whole);
        FullAndEmpty(parts[n].view);
        ReopenedSyncAgrees(parts[n].view, Marks()[n], page, dataOk, indexOk, d, whole);
        AgreeChanged(parts, parts, Marks(), Marks(), directory.durable,
                     directory.durable[NextBase(parts) := after], n, whole);
      }
    }

    lemma StubFlushed(v: View, m: Mark, indexOk: bool)
      requires Valid() && stub.Some? && EndedAtOnce(v, m) && |segments| == |parts|
      requires NextBase(parts) in directory.files && NextBase(parts) in directory.durable
      requires v.buffer == directory.files[NextBase(parts)].buffer[..]
      requires v.index == directory.files[NextBase(parts)].index[..]
      ensures KeepsMarker(AfterSync(v, m, page, true, indexOk, directory.durable[NextBase(parts)]))
    {
      hide Core, MarkedEos, Bases, StubImage, AfterSync, EndedAtOnce, OnFile, Covers, KeepsMarker;
      PagesFit();
      Slots(size);
      OnFileCapacity(v.buffer, v.index, [], true);
      StubSizes(v.buffer, v.index, directory.durable[NextBase(parts)]);
      MarkerIsFlushed(v, m, page, indexOk, directory.durable[NextBase(parts)]);
    }

    /**
      segment_close of a segment that took no payload: its msync may fail, and nothing is made of that. When
      that of the data does not, the end marker is on disk afterwards.
    */
    method CloseDropped(sgm: Seg.Segment)
      requires Valid() && Left() && Full() && Opens(sgm) && sgm !in home && sgm !in index.footprint
      requires EndedAtOnce(sgm.ViewOf(), sgm.MarkOf())
      requires stub.None? ==>
                 sgm.ViewOf() == Reopened(sgm.buffer[..], sgm.index[..], [], true)
                 && sgm.MarkOf() == Mark(sgm.ViewOf().w, 0)
      modifies sgm`s, sgm`synced, directory`durable
      ensures Valid() && Marks() == old(Marks())
      ensures forall whole | old(Agreed(whole)) :: Agreed(whole)
      ensures NextBase(parts) !in directory.dataFaults ==> StubKept()
    {
      hide Core, MarkedEos, Bases, AfterSync, WellFormed, OnDisk, Exact, AllAgree, Reopened, Full, MarkAfterSync,
        EndedAtOnce, Seg.Segment.Valid;
      var dataOk, indexOk := sgm.base !in directory.dataFaults, sgm.base !in directory.indexFaults;
      InHome();
      PagesFit();
      ghost var d, v, m := directory.durable[sgm.base], sgm.ViewOf(), sgm.MarkOf();
      DroppedAgrees(v, m, dataOk, indexOk);
      forall whole | Agreed(whole)
        ensures AllAgree(parts, Marks(),
                         directory.durable[sgm.base := AfterSync(v, m, page, dataOk, indexOk, d)], whole)
      {
        DroppedKeeps(v, m, dataOk, indexOk, whole);
      }
      var r;
      ghost var after;
      r, after := sgm.Sync(page, dataOk, indexOk, d);
      if dataOk && stub.Some? {
        StubFlushed(v, m, indexOk);
      }
      Flush(sgm.base, after);
    }

    /** New files change nothing for the segments before, and their segment may join them. */
    lemma AgreedGrown(marks: seq<Mark>, durable: map<nat, Image>, part: Part, m: Mark, d: Image)
      requires Core() && !LastEmpty(parts) && part.base == NextBase(parts)
      ensures forall whole | AllAgree(parts, marks, durable, whole) ::
                AllAgree(parts, marks, durable[part.base := d], whole)
      ensures (forall whole :: Agrees(part.view, m, d, whole)) ==>
                forall whole | AllAgree(parts, marks, durable, whole) ::
                  AllAgree(parts + [part], marks + [m], durable[part.base := d], whole)
    {
      hide Apart, At, Tree.Valid, Tiles, AllAgree, Agrees;
      forall whole | AllAgree(parts, marks, durable, whole)
        ensures AllAgree(parts, marks, durable[part.base := d], whole)
        ensures Agrees(part.view, m, d, whole) ==>
                  AllAgree(parts + [part], marks + [m], durable[part.base := d], whole)
      {
        AgreeGrown(parts, marks, durable, part, m, d, whole);
      }
    }

    /** A write to a segment after the last one, which joins the index only once it has taken the payload. */
    method WriteNew(base: nat, buf: Payload) returns (r: WriteResult)
      requires Valid() && Full() && base == NextBase(parts) < 0x1_0000_0000_0000_0000
      modifies this`segments, this`parts, this`stub, this`home
      modifies directory`files, directory`durable, index, index.footprint
      ensures Valid() && fresh(index.footprint - old(index.footprint)) && fresh(home.Keys - old(home.Keys))
      ensures r == if old(LastEmpty(parts) && !Sized()) then WriteResult.ELFLEOP
                   else if old(!Left()) && |buf| + 2 * HEADER_SIZE <= size then Written(|buf|) else ELNOWCP
      ensures !r.Written? ==> parts == old(parts) && segments == old(segments) && Left() && Marks() == old(Marks())
      ensures r.Written? ==>
                && stub.None? && |parts| == |old(parts)| + 1 && old(parts) <= parts && old(segments) <= segments
                && |segments| == |parts| && !LastEmpty(parts)
      ensures r.Written? ==> Contents(parts) == Contents(old(parts)) + [Record(buf)]
      ensures r.Written? ==> Sized()
      ensures r.Written? ==> Marks() == old(Marks()) + [Mark(Position(0, 0), 0)]
      ensures r.Written? ==> directory.durable == old(directory.durable)[base := Zeroed(size)]
      ensures r == ELNOWCP && base !in directory.dataFaults ==> StubKept()
      ensures forall whole | old(Agreed(whole)) :: Agreed(whole)
    {
      hide Tree.Valid, Seg.Segment.Valid, Seg.Segment.ViewOf, WellFormed, OnFile, MarkedEos, Fits, Entries, Contents,
        Created, Reopened, Ready, Core, OnDisk, Exact, Tiles, AllAgree, Agrees, EndedAtOnce, StubImage, Zeroed,
        Marks, Seg.Segment.MarkOf, Opens, Sized, LastEmpty;
      ghost var marks, durable := Marks(), directory.durable;
      var opening := CreateSegment(base);
      if !opening.Opened? {
        return WriteResult.ELFLEOP;
      }
      var sgm := opening.sgm;
      var ok := WriteCreated(sgm, buf);
      ghost var part := Part(base, sgm.ViewOf());
      if !Left() {
        AgreedGrown(marks, durable, part, sgm.MarkOf(), Zeroed(size));
      }
      if !ok {
        if !Left() {
          KeepStub(sgm);
        }
        CloseDropped(sgm);
        return ELNOWCP;
      }
      ContentsSnoc(parts, part);
      AddSegment(sgm);
      return Written(|buf|);
    }

    /** The value that the index has last is the last segment. */
    method LastSegment() returns (sgm: Seg.Segment?)
      requires Core()
      ensures sgm == if parts == [] then null else segments[|parts| - 1]
      ensures sgm != null ==> sgm in home && sgm.buffer in home && sgm.index in home
      ensures sgm != null ==> sgm.base + sgm.w.index == NextBase(parts)
    {
      hide Tree.Valid, Tiles, Seg.Segment.Valid;
      var found, value := index.LastValue();
      if found {
        assert At(|parts| - 1);
        return value.value;
      }
      return null;
    }

    /** `WriteLast` in a log: the directory keeps its files. */
    method WriteExisting(sgm: Seg.Segment, buf: Payload) returns (r: Seg.WriteResult)
      requires Valid() && parts != [] && sgm == segments[|parts| - 1]
      requires LastHasSlot(parts, |buf|)
      modifies this`parts, sgm, sgm.buffer, sgm.index
      ensures Valid() && parts == WithLast(old(parts), parts[|parts| - 1].view)
      ensures Extends(old(parts), parts) && Marks() == old(Marks()) && |segments| == |parts|
      ensures LastEmpty(parts) ==> old(LastEmpty(parts))
      ensures forall whole | old(Agreed(whole)) :: Agreed(whole)
      ensures old(LastTakes(parts, |buf|)) ==>
                && r == Seg.Written(|buf|) && Contents(parts) == Contents(old(parts)) + [Record(buf)]
                && stub.None? && !LastEmpty(parts)
      ensures !old(LastTakes(parts, |buf|)) ==>
                && r == Seg.ELEOS && Contents(parts) == Contents(old(parts))
                && NextBase(parts) == NextBase(old(parts)) && Full() && LastEmpty(parts) == old(LastEmpty(parts))
    {
      hide Tree.Valid, Seg.Segment.Valid, Seg.Segment.ViewOf, WellFormed, OnFile, Contents, Entries, Fits, Flags,
        Tiles, Bases, Agreed, Marks, StubImage;
      ghost var was := parts;
      assert At(|parts| - 1);
      r := WriteLast(sgm, buf);
      BasesKept(was, parts[|parts| - 1].view);
    }

    /** The log has refused a payload, and nothing was done about it. */
    ghost predicate Spent()
      reads this`parts, this`stub
    {
      stub.Some? || LastEndedEmpty(parts)
    }

    /** Whether a payload of `n` bytes has a segment to go to. */
    ghost predicate Takes(n: nat)
      requires Tiles(parts)
      reads this`parts, this`stub
    {
      LastTakes(parts, n) || (!Left() && n + 2 * HEADER_SIZE <= size)
    }

    lemma SpentIsLeft()
      requires Core()
      ensures Spent() ==> Left()
      ensures Full() && Left() ==> Spent()
    {
      hide Tree.Valid, Seg.Segment.Valid, Flags, OnFile;
      if parts != [] {
        assert TiledAt(parts, |parts| - 1);
        if !LastEmpty(parts) {
          SomeEntry(parts[|parts| - 1].view);
        } else if Full() {
          FullAndEmpty(parts[|parts| - 1].view);
        }
      }
    }

    /**
      mqlog_trywrite, under the mutex: the payload goes to the last segment, or to a new one when that is at its end.
      It is refused exactly when neither takes it, and from then on the log takes nothing more. What is on
      disk stays what the marks say.
    */
    method TryWrite(buf: Payload) returns (r: WriteResult)
      requires Valid() && LastHasSlot(parts, |buf|) && NextBase(parts) < 0x1_0000_0000_0000_0000 && lock.held
      modifies this`segments, this`parts, this`stub, this`home
      modifies directory`files, directory`durable, index, index.footprint, home.Keys
      ensures Valid() && fresh(index.footprint - old(index.footprint)) && fresh(home.Keys - old(home.Keys))
      ensures r == if old(Takes(|buf|)) then Written(|buf|)
                   else if old(LastEmpty(parts) && !Sized()) then WriteResult.ELFLEOP else ELNOWCP
      ensures Contents(parts) == Contents(old(parts)) + if r.Written? then [Record(buf)] else []
      ensures old(segments) <= segments && Extends(old(parts), parts) && |segments| == |parts|
      ensures |parts| == |old(parts)| + if r.Written? && !old(LastTakes(parts, |buf|)) then 1 else 0
      ensures Marks() == old(Marks()) + if |parts| > |old(parts)| then [Mark(Position(0, 0), 0)] else []
      ensures Spent() <==> !r.Written?
      ensures r.Written? ==> !LastEmpty(parts) && stub.None?
      ensures r.Written? ==>
                directory.durable == if |parts| == |old(parts)| then old(directory.durable)
                                     else old(directory.durable)[NextBase(old(parts)) := Zeroed(size)]
      ensures r == ELNOWCP && NextBase(parts) !in directory.dataFaults ==> StubKept()
      ensures forall whole | old(Agreed(whole)) :: Agreed(whole)
      ensures old(Sized()) ==> Sized()
    {
      hide Tree.Valid, Seg.Segment.Valid, Seg.Segment.ViewOf, WellFormed, OnFile, MarkedEos, Fits, Entries, Contents,
        Created, Reopened, Ready, Core, Tiles, OnDisk, Exact, Agreed, Marks, Zeroed, Sized, Spent;
      Separate();
      var sgm := LastSegment();
      var base := 0;
      if sgm != null {
        var written := WriteExisting(sgm, buf);
        if written != Seg.ELEOS {
          SpentIsLeft();
          return Written(|buf|);
        }
        LastOffset();
        base := sgm.WriteOffset();
      }
      r := WriteNew(base, buf);
      SpentIsLeft();
    }

    /**
      While all segments have the size of the log, what is taken depends on the length alone, not on how
      full they are.
    */
    lemma TakesExactly(n: nat)
      requires Valid() && Sized()
      ensures Takes(n) <==> !Spent() && n + 2 * HEADER_SIZE <= size
    {
      hide Tree.Valid, Flags, Seg.Segment.Valid, OnFile, StubImage, Bases;
      if stub.Some? {
        assert !Takes(n);
      } else if parts != [] {
        assert At(|parts| - 1) && TiledAt(parts, |parts| - 1);
        RoomAtAll(parts[|parts| - 1].view, n);
      }
    }

    /** Once a payload was refused, every other one is, however small, until the log is opened again. */
    lemma RefusedForGood(n: nat)
      requires Valid() && Spent()
      ensures !Takes(n)
    {
      hide Tree.Valid, At, Flags, OnFile, StubImage, Bases;
      if stub.None? {
        assert TiledAt(parts, |parts| - 1);
        RoomAtAll(parts[|parts| - 1].view, n);
      }
    }

    /** With committed reads, an entry is withheld until a sync has covered it. */
    ghost predicate Withheld(offset: nat)
      requires |segments| == |parts|
      reads this`segments, this`parts, segments
    {
      committed && Unsynced(parts, Marks(), offset)
    }

    /**
      `TryWrite` for committed reads: no entry that such a read could have is withheld afterwards, and the
      new one is until a sync.
    */
    method WriteHeld(buf: Payload) returns (r: WriteResult)
      requires Valid() && LastHasSlot(parts, |buf|) && NextBase(parts) < 0x1_0000_0000_0000_0000 && lock.held
      modifies this`segments, this`parts, this`stub, this`home
      modifies directory`files, directory`durable, index, index.footprint, home.Keys
      ensures Valid() && fresh(index.footprint - old(index.footprint)) && fresh(home.Keys - old(home.Keys))
      ensures r == if old(Takes(|buf|)) then Written(|buf|)
                   else if old(LastEmpty(parts) && !Sized()) then WriteResult.ELFLEOP else ELNOWCP
      ensures Contents(parts) == Contents(old(parts)) + if r.Written? then [Record(buf)] else []
      ensures old(Sized()) ==> Sized()
      ensures Spent() <==> !r.Written?
      ensures |parts| == |old(parts)| + if r.Written? && !old(LastTakes(parts, |buf|)) then 1 else 0
      ensures r.Written? ==> !LastEmpty(parts)
      ensures old(segments) <= segments && Extends(old(parts), parts) && |segments| == |parts|
      ensures r.Written? ==>
                directory.durable == if |parts| == |old(parts)| then old(directory.durable)
                                     else old(directory.durable)[NextBase(old(parts)) := Zeroed(size)]
      ensures r == ELNOWCP && NextBase(parts) !in directory.dataFaults ==> StubKept()
      ensures forall whole | old(Agreed(whole)) :: Agreed(whole)
      ensures NewMarks(old(Marks()), Marks())
      ensures forall k: nat | k < |Contents(old(parts))| :: Withheld(k) == old(Withheld(k))
      ensures committed && r.Written? ==> Withheld(|Contents(old(parts))|)
    {
      hide Tree.Valid, Core, LastTakes, OnDisk, Exact, Tiles, Takes, Contents, Unsynced, Sized, Extends, Agreed,
        Spent, LastEmpty, Zeroed;
      Counted();
      ghost var before, marks := parts, Marks();
      r := TryWrite(buf);
      Counted();
      forall k: nat | k < |Contents(before)| ensures Unsynced(parts, Marks(), k) <==> Unsynced(before, marks, k) {
        UnsyncedKept(before, parts, marks, Marks(), k);
      }
      if r.Written? {
        NewIsUnsynced(before, parts, marks, Marks(), buf);
      }
    }

    /** mqlog_write. */
    method Write(buf: Payload) returns (r: WriteResult)
      requires Valid()
      requires LastHasSlot(parts, |buf|) && NextBase(parts) < 0x1_0000_0000_0000_0000
      modifies this`segments, this`parts, this`stub, this`home, lock
      modifies directory`files, directory`durable, index, index.footprint, home.Keys
      ensures Valid() && fresh(index.footprint - old(index.footprint)) && fresh(home.Keys - old(home.Keys))
      ensures lock.held == old(lock.held)
      ensures |buf| == 0 || lock.held ==> parts == old(parts) && segments == old(segments) && stub == old(stub)
      ensures r == if |buf| == 0 then Written(0) else if lock.held then ELLOCK
                   else if old(Takes(|buf|)) then Written(|buf|)
                   else if old(LastEmpty(parts) && !Sized()) then WriteResult.ELFLEOP else ELNOWCP
      ensures Contents(parts) == Contents(old(parts)) + if |buf| > 0 && r.Written? then [Record(buf)] else []
      ensures old(Sized()) ==> Sized()
      ensures |buf| > 0 && !lock.held ==> (Spent() <==> !r.Written?)
      ensures |parts| == |old(parts)| +
                         if |buf| > 0 && r.Written? && !old(LastTakes(parts, |buf|)) then 1 else 0
      ensures |buf| > 0 && r.Written? ==> !LastEmpty(parts)
      ensures old(segments) <= segments && Extends(old(parts), parts) && |segments| == |parts|
      ensures r.Written? ==>
                directory.durable == if |parts| == |old(parts)| then old(directory.durable)
                                     else old(directory.durable)[NextBase(old(parts)) := Zeroed(size)]
      ensures r == ELNOWCP && NextBase(parts) !in directory.dataFaults ==> StubKept()
      ensures forall whole | old(Agreed(whole)) :: Agreed(whole)
      ensures NewMarks(old(Marks()), Marks())
      ensures forall k: nat | k < |Contents(old(parts))| :: Withheld(k) == old(Withheld(k))
      ensures committed && |buf| > 0 && r.Written? ==> Withheld(|Contents(old(parts))|)
    {
      hide Tree.Valid, At, Finds, LastTakes, OnDisk, Exact, Tiles, Takes, Contents, Withheld, Sized, Agreed, Spent,
        LastEmpty, Zeroed, Marks;
      Counted();
      if |buf| == 0 {
        return Written(0);
      }
      var ok := lock.TryLock();
      if !ok {
        return ELLOCK;
      }
      r := WriteHeld(buf);
      lock.Unlock();
    }

    lemma Counted()
      requires Valid()
      ensures |segments| == |parts| && Tiles(parts) && |Contents(parts)| == NextBase(parts)
      ensures forall i | 0 <= i < |parts| :: Marks()[i].synced <= |parts[i].view.frames|
    {
      hide Tree.Valid, OnDisk, Exact, Tiles, Contents, WellFormed;
      ContentsLength(parts);
      forall i | 0 <= i < |parts| ensures segments[i].synced <= |parts[i].view.frames| {
        assert At(i);
      }
    }

    lemma RecordInFrames(g: nat, j: nat)
      requires Valid() && g < |parts|
      requires j < |Entries(parts[g].view)| && Entries(parts[g].view)[j].Record?
      ensures j < |parts[g].view.frames|
    {
      hide Core, OnDisk, Exact;
    }

    /** The segment of an offset, looked up under the mutex. */
    method FindSegment(offset: Shape.Key) returns (sgm: Seg.Segment?, ghost g: nat)
      requires Valid() && lock.held
      modifies index`sharedLock
      ensures Valid() && |segments| == |parts|
      ensures sgm == null ==> Contents(parts) == []
      ensures sgm != null ==> g < |parts| && sgm == segments[g] && sgm.base == parts[g].base <= offset
      ensures sgm != null ==> forall q | g < q < |parts| :: offset < parts[q].base
    {
      hide Tree.Valid, Seg.Segment.Valid, Seg.Segment.ViewOf, Covers, Tiles, StubOnDisk, Facts.Stands, Contents,
        Bases;
      var rc, it := index.LeafFloor(offset);
      if !it.IsValid() {
        forall q | 0 <= q < |parts| ensures offset < parts[q].base {
          assert offset < index.contents[q].key;
        }
        NothingFound(parts, offset);
        return null, 0;
      }
      g :| Facts.Floor(index.contents, offset, g) && Facts.Stands(index.levels[0], it.leaf, it.idx, g);
      var key, value := it.Current(index, g);
      sgm := value.value;
      assert At(g);
      forall q | g < q < |parts| ensures offset < parts[q].base {
        assert offset < index.contents[q].key;
      }
    }

    /** The read of a segment of the log. */
    method ReadSegment(sgm: Seg.Segment, relative: nat, ghost g: nat) returns (r: ReadResult)
      requires Valid() && g < |parts| && sgm == segments[g]
      requires |Entries(parts[g].view)| == parts[g].view.w.index
      ensures relative >= parts[g].view.w.index ==> r == ELNORD
      ensures relative < parts[g].view.w.index ==>
                match Entries(parts[g].view)[relative]
                case Hole => r == ELEOS
                case Record(p) => if committed && relative >= segments[g].synced then r == ELNORD else HandsOut(r, p)
    {
      hide Tree.Valid, Covers, StubOnDisk, Bases, Seg.Segment.Valid, WellFormed;
      assert At(g) && TiledAt(parts, g);
      EndSynced(parts[g].view);
      var read := sgm.Read(relative);
      match read
      case Payload(at, length) => return Frame(sgm.buffer, at, length);
      case ELNORD => return ELNORD;
      case EndOfSegment => return ELEOS;
      case ELINVHD => return ELINVHD;
    }

    /**
      mqlog_read: offset `k` gives entry `k` of the log, whatever segment it is in, and nothing past the
      end. With committed reads an entry is withheld until it is durable.
    */
    method Read(offset: Shape.Key) returns (r: ReadResult)
      requires Valid()
      modifies lock, index`sharedLock
      ensures Valid() && lock.held == old(lock.held)
      ensures lock.held ==> r == READ_ELLOCK
      ensures !lock.held && offset >= |Contents(parts)| ==> r == ELNORD
      ensures !lock.held && offset < |Contents(parts)| ==>
                match Contents(parts)[offset]
                case Hole => r == ELEOS
                case Record(p) => if Withheld(offset) then r == ELNORD else HandsOut(r, p)
    {
      hide Tree.Valid, At, Finds, OnDisk, Exact, Tiles, Contents, Entries;
      var ok := lock.TryLock();
      if !ok {
        return READ_ELLOCK;
      }
      var sgm, g := FindSegment(offset);
      lock.Unlock();
      if sgm == null {
        return ELNORD;
      }
      FloorFinds(parts, g, offset);
      if offset < |Contents(parts)| && Contents(parts)[offset].Record? {
        RecordInFrames(g, offset - sgm.base);
        UnsyncedHere(parts, Marks(), offset, g);
      }
      r := ReadSegment(sgm, offset - sgm.base, g);
    }

    /** The files of segment `g` are what is mapped. */
    lemma Mapped(g: nat)
      requires Held() && g < |parts|
      ensures |segments| == |parts| && Tiles(parts) && segments[g].base == parts[g].base && page > 0 && page % 8 == 0
      ensures stub.Some? ==> parts[g].base != NextBase(parts)
      ensures Bases(parts) <= directory.durable.Keys
      ensures parts[g].base in directory.durable && parts[g].base in directory.files
      ensures directory.files[parts[g].base] == File(segments[g].buffer, segments[g].index)
      ensures SameSize(parts[g].view, directory.durable[parts[g].base]) && segments[g].ViewOf() == parts[g].view
      ensures segments[g].Valid() && SyncedTo(parts[g].view, Marks()[g].s, Marks()[g].synced)
      ensures Syncable(parts[g].view, Marks()[g], page, directory.durable[parts[g].base])
    {
      hide Tree.Valid, Tiles, OnFile, WellFormed, StubImage;
      assert At(g);
      if stub.Some? {
        NextIsNew(parts);
      }
    }

    /** segment_sync of one segment of the log. */
    method SyncSegment(sgm: Seg.Segment, dataOk: bool, indexOk: bool, ghost g: nat) returns (r: Seg.SyncResult)
      requires Held() && g < |parts| == |segments| && sgm == segments[g]
      modifies sgm`s, sgm`synced, directory`durable
      ensures Held() && parts[g].base in old(directory.durable)
      ensures page > 0 && |Marks()| == |segments|
      ensures Seg.Answers(r, old(Marks())[g].s, Marks()[g].s, parts[g].view.w.data, page, dataOk, indexOk)
      ensures r.Done? <==> Completes(parts[g], old(Marks())[g], page, dataOk, indexOk)
      ensures Marks() == MarksSynced(parts, old(Marks()), old(directory.durable), g, page, dataOk, indexOk)
      ensures directory.durable == DiskSynced(parts, old(Marks()), old(directory.durable), g, page, dataOk, indexOk)
    {
      hide Tree.Valid, Tiles, Bases, Seg.Segment.Valid, SyncCompletes, MarkAfterSync, AfterSync, WellFormed,
        SyncedTo, StubImage, OnFile, Covers, Directory.Imaged, MarkedEos, Finds;
      Mapped(g);
      assert At(g);
      forall i | 0 <= i < |parts| && i != g ensures segments[i] != sgm {
        assert At(i);
      }
      ghost var d := directory.durable[sgm.base];
      AfterSyncSize(parts[g].view, Marks()[g], page, dataOk, indexOk, d);
      ghost var after;
      r, after := sgm.Sync(page, dataOk, indexOk, d);
      forall i | 0 <= i < |parts| ensures At(i) {
        assert old(At(i));
      }
      Flush(sgm.base, after);
    }

    /** A sync keeps on disk what the marks say. */
    lemma SyncAgrees(g: nat, dataOk: bool, indexOk: bool)
      requires Held() && g < |parts| && |segments| == |parts| && parts[g].base in directory.durable
      ensures forall whole | Agreed(whole) ::
                AllAgree(parts, MarksSynced(parts, Marks(), directory.durable, g, page, dataOk, indexOk),
                         DiskSynced(parts, Marks(), directory.durable, g, page, dataOk, indexOk), whole)
    {
      hide Core, OnDisk, Exact, AllAgree, Tiles, MarksSynced, DiskSynced;
      Mapped(g);
      forall whole | Agreed(whole)
        ensures AllAgree(parts, MarksSynced(parts, Marks(), directory.durable, g, page, dataOk, indexOk),
                         DiskSynced(parts, Marks(), directory.durable, g, page, dataOk, indexOk), whole)
      {
        AgreeSynced(parts, Marks(), directory.durable, g, page, dataOk, indexOk, whole);
      }
    }

    /** The index has `h` levels of inner nodes only over at least 6 * 4^(h - 1) + 1 segments. */
    lemma IndexDepth()
      requires Held() && |index.levels| > 1
      ensures |segments| >= 6 * Facts.Power(4, |index.levels| - 2) + 1
    {
      hide OnDisk, At, Tiles, Tree.Valid;
      index.Depth();
    }

    /** What the index leads to. */
    lemma Found(g: nat)
      requires Held() && g < |index.contents|
      ensures |index.contents| == |segments| == |parts|
      ensures segments[g] in home && index.contents[g].value == segments[g] && segments[g].base == parts[g].base
    {
      hide Tree.Valid, Tiles, Seg.Segment.Valid, Seg.Segment.ViewOf, Covers, Bases, StubOnDisk;
      assert At(g);
    }

    lemma Unlocked()
      requires Held()
      ensures index.Valid() && index.exclusiveLock == 0 && index.sharedLock == 0
      ensures |index.contents| == |segments| == |parts| && page > 0
    {
      hide Tree.Valid, At, Tiles, Bases, StubOnDisk;
    }

    /** All frames of the first `n` segments are below the marks. */
    ghost predicate Marked(n: nat)
      requires n <= |segments| == |parts|
      reads this`segments, this`parts, segments
    {
      forall i | 0 <= i < n :: segments[i].synced == |parts[i].view.frames|
    }

    /** Then no entry is withheld. */
    lemma MarkedIsRead(k: nat)
      requires |segments| == |parts| && Marked(|parts|)
      ensures !Withheld(k)
    {
    }

    /** What a sync of the last segment returns: how many entries of its index it flushed, or why it failed. */
    ghost predicate LastAnswers(r: Seg.SyncResult, before: seq<Mark>, dataOk: bool, indexOk: bool)
      reads this`segments, this`parts, segments
    {
      && page > 0 && |before| == |segments| == |parts| > 0
      && var n := |parts| - 1;
      Seg.Answers(r, before[n].s, Marks()[n].s, parts[n].view.w.data, page, dataOk, indexOk)
    }

    /** segment_sync of the last segment, in terms of the marks. */
    method SyncLast(sgm: Seg.Segment, dataOk: bool, indexOk: bool) returns (r: Seg.SyncResult)
      requires Held() && |segments| == |parts| && parts != [] && sgm == segments[|parts| - 1]
      modifies sgm, directory`durable
      ensures Held() && page > 0 && |Marks()| == |parts|
      ensures LastAnswers(r, old(Marks()), dataOk, indexOk)
      ensures r.Done? <==> LastCompletes(parts, old(Marks()), page, dataOk, indexOk)
      ensures (Marks(), directory.durable) ==
                LastSynced(parts, old(Marks()), old(directory.durable), page, dataOk, indexOk)
      ensures dataOk ==> (Marked(|parts|) <==> old(Marked(|parts| - 1)))
      ensures dataOk ==> forall k: nat :: Withheld(k) <==> old(Withheld(k)) && k < parts[|parts| - 1].base
      ensures forall whole | old(Agreed(whole)) :: Agreed(whole)
    {
      hide Tree.Valid, Core, OnDisk, Exact, WellFormed, Completes, AllAgree, AfterSync, Unsynced, Tiles;
      Mapped(|parts| - 1);
      SyncAgrees(|parts| - 1, dataOk, indexOk);
      ghost var marks := Marks();
      r := SyncSegment(sgm, dataOk, indexOk, |parts| - 1);
      if dataOk {
        forall k: nat
          ensures Unsynced(parts, Marks(), k) <==> Unsynced(parts, marks, k) && k < parts[|parts| - 1].base
        {
          SyncedLast(parts, marks, Marks(), k);
        }
      }
    }

    /**
      mqlog_sync flushes the last segment only. After it all entries can be read by committed reads if and
      only if those of the segments before could already; the entries it makes readable are those of the
      last segment (`MqlogLayout.SyncedLast`).
    */
    method Sync(dataOk: bool, indexOk: bool) returns (r: Seg.SyncResult)
      requires |segments| == |parts| && Valid()
      modifies if parts == [] then {} else {segments[|parts| - 1]}
      modifies if parts == [] then {} else {directory}
      ensures Valid() && directory.files == old(directory.files)
      ensures parts == [] ==> r == Seg.Done(0)
      ensures parts != [] ==> LastAnswers(r, old(Marks()), dataOk, indexOk)
      ensures r.Done? <==> LastCompletes(parts, old(Marks()), page, dataOk, indexOk)
      ensures (Marks(), directory.durable) ==
                LastSynced(parts, old(Marks()), old(directory.durable), page, dataOk, indexOk)
      ensures dataOk && parts != [] ==> (Marked(|parts|) <==> old(Marked(|parts| - 1)))
      ensures dataOk && parts != [] ==>
                forall k: nat :: Withheld(k) <==> old(Withheld(k)) && k < parts[|parts| - 1].base
      ensures forall whole | old(Agreed(whole)) :: Agreed(whole)
    {
      hide Tree.Valid, Core, OnDisk, Exact, WellFormed, Completes, Marked, Marks, MarksSynced, DiskSynced, AllAgree,
        Withheld;
      var sgm := LastSegment();
      if sgm == null {
        return Seg.Done(0);
      }
      r := SyncLast(sgm, dataOk, indexOk);
    }

    /** The traversal has begun: nothing was synced so far. */
    lemma NothingSynced(dataFaults: set<nat>, indexFaults: set<nat>)
      requires Held() && |segments| == |parts|
      ensures SyncedFirst(parts, Marks(), directory.durable, Marks(), directory.durable, 0, page, dataFaults,
                          indexFaults)
      ensures Failures(parts, Marks(), 0, page, dataFaults, indexFaults) == 0
    {
      hide Core, OnDisk, Exact;
      forall b | b in Bases(parts) ensures b in directory.durable {
        var i :| 0 <= i < |parts| && parts[i].base == b;
        Mapped(i);
      }
    }

    /** What the next round finds, and makes of it. */
    lemma NotYetSynced(marks: seq<Mark>, durable: map<nat, Image>, g: nat, dataFaults: set<nat>,
                       indexFaults: set<nat>)
      requires Held() && |segments| == |parts| && g < |parts|
      requires SyncedFirst(parts, marks, durable, Marks(), directory.durable, g, page, dataFaults, indexFaults)
      ensures parts[g].base in directory.durable && Marks()[g] == marks[g] && |marks| == |parts|
      ensures
        var dataOk, indexOk := parts[g].base !in dataFaults, parts[g].base !in indexFaults;
        && SyncedFirst(parts, marks, durable, MarksSynced(parts, Marks(), directory.durable, g, page, dataOk, indexOk),
                       DiskSynced(parts, Marks(), directory.durable, g, page, dataOk, indexOk), g + 1, page, dataFaults,
                       indexFaults)
        && forall whole | Agreed(whole) ::
             AllAgree(parts, MarksSynced(parts, Marks(), directory.durable, g, page, dataOk, indexOk),
                      DiskSynced(parts, Marks(), directory.durable, g, page, dataOk, indexOk), whole)
    {
      hide Tree.Valid, Finds, At, Tiles, OnDisk, Exact, SyncedAt, MarksSynced, DiskSynced, AllAgree;
      SyncedNext(parts, marks, durable, Marks(), directory.durable, g, page, dataFaults, indexFaults);
      SyncAgrees(g, parts[g].base !in dataFaults, parts[g].base !in indexFaults);
    }

    /** The floor of zero is the first segment. */
    lemma StartsAtZero()
      requires Held()
      ensures parts == [] ==> forall g :: !Facts.Floor(index.contents, 0, g)
      ensures forall g | Facts.Floor(index.contents, 0, g) :: g == 0
      ensures parts != [] ==> |index.contents| > 0 && index.contents[0].key == 0
      ensures |index.contents| > 1 ==> index.contents[1].key > 0
      ensures Facts.From(index.contents, 0) == index.contents
    {
      hide Tree.Valid, Seg.Segment.Valid, WellFormed, Covers, Bases, At, StubOnDisk;
      assert parts != [] ==> TiledAt(parts, 0);
      forall i | 0 < i < |parts| ensures parts[i].base > 0 {
        assert TiledAt(parts, 0);
        BasesAscend(parts, 0, i);
      }
    }

    /** One round of mqlog_close: the segment of the iterator is closed, and the iterator moves on. */
    method CloseNext(it: LeafIterator<Seg.Segment>, dataFaults: set<nat>, indexFaults: set<nat>, ghost g: nat,
                     ghost marks: seq<Mark>, ghost durable: map<nat, Image>)
      returns (sgm: Seg.Segment, ok: bool)
      requires Held() && |index.levels| > 0 && it.leaf != null && Facts.Stands(index.levels[0], it.leaf, it.idx, g)
      requires it !in home && it !in index.footprint && |marks| == |segments| == |parts| && g < |parts|
      requires SyncedFirst(parts, marks, durable, Marks(), directory.durable, g, page, dataFaults, indexFaults)
      modifies it, segments[g], directory`durable
      ensures Held() && sgm == segments[g] && |index.levels| > 0 && (it.IsValid() <==> it.leaf != null)
      ensures it.leaf != null <==> g + 1 < |parts|
      ensures it.leaf != null ==> Facts.Stands(index.levels[0], it.leaf, it.idx, g + 1)
      ensures Failures(parts, marks, g + 1, page, dataFaults, indexFaults)
           == Failures(parts, marks, g, page, dataFaults, indexFaults) + if ok then 0 else 1
      ensures SyncedFirst(parts, marks, durable, Marks(), directory.durable, g + 1, page, dataFaults, indexFaults)
      ensures forall whole | old(Agreed(whole)) :: Agreed(whole)
    {
      hide Tree.Valid, Finds, At, Tiles, OnDisk, Exact, Facts.Stands, Completes, AllComplete, Marks, MarksSynced,
        DiskSynced, SyncedFirst, AllAgree;
      Unlocked();
      NotYetSynced(marks, durable, g, dataFaults, indexFaults);
      var key, value := it.Current(index, g);
      sgm := value.value;
      Found(g);
      var r := SyncSegment(sgm, sgm.base !in dataFaults, sgm.base !in indexFaults, g);
      ok := r.Done?;
      Unlocked();
      assert forall whole | old(Agreed(whole)) :: Agreed(whole);
      it.Next(index, g);
    }

    /**
      The traversal of mqlog_close: it visits every segment once, in order, and closes it. An msync fails
      for the segments with a base among the faults. What is on disk stays what the marks say.
    */
    method Close(dataFaults: set<nat>, indexFaults: set<nat>) returns (errors: nat, visited: seq<Seg.Segment>)
      requires Held()
      modifies segments, index`sharedLock, directory`durable
      ensures Held() && visited == segments && |segments| == |parts|
      ensures parts == old(parts) && segments == old(segments) && stub == old(stub) && home == old(home)
      ensures errors == Failures(parts, old(Marks()), |parts|, page, dataFaults, indexFaults)
      ensures SyncedFirst(parts, old(Marks()), old(directory.durable), Marks(), directory.durable, |parts|, page,
                          dataFaults, indexFaults)
      ensures forall whole | old(Agreed(whole)) :: Agreed(whole)
    {
      hide Core, OnDisk, Exact, Tree.Valid, Facts.Stands, AllComplete, Failures, Marks, SyncedFirst, Agreed;
      errors, visited := 0, [];
      Separate();
      Unlocked();
      ghost var marks, durable := Marks(), directory.durable;
      NothingSynced(dataFaults, indexFaults);
      var rc, it := index.LeafFirst();
      ghost var g: nat := 0;
      StartsAtZero();
      while it.IsValid()
        invariant fresh(it) && Held() && |index.levels| > 0 && (it.IsValid() <==> it.leaf != null)
        invariant |visited| <= |segments| == |parts| && visited == segments[..|visited|]
        invariant if it.leaf == null then |visited| == |segments|
                  else |visited| == g < |parts| && Facts.Stands(index.levels[0], it.leaf, it.idx, g)
        invariant errors == Failures(parts, marks, |visited|, page, dataFaults, indexFaults)
        invariant SyncedFirst(parts, marks, durable, Marks(), directory.durable, |visited|, page, dataFaults,
                              indexFaults)
        invariant forall whole | old(Agreed(whole)) :: Agreed(whole)
        decreases |segments| - |visited|
      {
        InHome();
        var sgm, ok := CloseNext(it, dataFaults, indexFaults, g, marks, durable);
        if !ok {
          errors := errors + 1;
        }
        visited := visited + [sgm];
        g := g + 1;
      }
    }

    /** Every segment has its files there, in whole pages, and its sync mark at its end. */
    ghost predicate Loaded(files: map<nat, File>)
      requires page > 0
      reads this`segments, this`parts, segments
    {
      && JustOpened(parts, Marks()) && |segments| == |parts|
      && forall i | 0 <= i < |parts| ::
          && parts[i].base in files && files[parts[i].base] == File(segments[i].buffer, segments[i].index)
          && segments[i].buffer.Length % page == 0
    }

    /** A segment that was opened is indexed. */
    method LoadSegment(sgm: Seg.Segment, ghost part: Part, ghost owner: map<object, nat>, ghost files: map<nat, File>)
      requires Core() && stub.None? && page > 0 && |segments| == |parts| && Loaded(files) && !LastEmpty(parts)
      requires Joins(sgm) && Keeps(sgm, part, committed) && sgm.base == part.base && WellFormed(part.view)
      requires OwnersAgree(home, owner, parts) && OwnersAgree(WithHome(home, sgm, |parts|), owner, parts + [part])
      requires part.base in files && files[part.base] == File(sgm.buffer, sgm.index)
      requires sgm.buffer.Length % page == 0 && sgm.MarkOf() == Mark(part.view.w, |part.view.frames|)
      requires (part.view.eos ==> part.view.stub) && part.view.w.index < |part.view.index|
      modifies this`segments, this`parts, this`home, index, index.footprint
      ensures Core() && fresh(index.footprint - old(index.footprint)) && OwnersAgree(home, owner, parts)
      ensures parts == old(parts) + [part] && |segments| == |parts| && Loaded(files)
      ensures home.Keys == old(home.Keys) + {sgm, sgm.buffer, sgm.index} && segments == old(segments) + [sgm]
    {
      hide Core, Seg.Segment.Valid, WellFormed, Keeps, OwnersAgree;
      Join(sgm, part);
    }

    /** One round of load_segments: the files of the next segment are opened and indexed. */
    method LoadNext(base: Shape.Key, ghost part: Part, ghost owner: map<object, nat>) returns (ok: bool)
      requires Core() && stub.None? && base == part.base == NextBase(parts) && page > 0 && !LastEmpty(parts)
      requires |segments| == |parts| && Loaded(directory.files) && directory.Imaged()
      requires base in directory.files && FileHolds(directory.files[base], part, owner)
      requires Loading(owner) && WellFormed(part.view)
      modifies this`segments, this`parts, this`home, index, index.footprint
      ensures ok <==> CanLoad(part, page)
      ensures !ok ==> unchanged(this) && unchanged(index) && unchanged(index.footprint)
      ensures ok ==> Core() && fresh(index.footprint - old(index.footprint)) && Loading(owner)
      ensures ok ==> fresh(home.Keys - old(home.Keys) - owner.Keys)
      ensures ok ==> parts == old(parts) + [part] && |segments| == |parts| && Loaded(directory.files)
      ensures ok ==> old(segments) <= segments && fresh(segments[|parts| - 1])
    {
      hide Tree.Valid, Finds, Seg.Segment.Valid, Seg.Segment.ViewOf, WellFormed, OnFile, At, Tiles, Bases,
        OwnersAgree, Loaded, Directory.Imaged, LastEmpty;
      BelowNext(parts);
      var file := directory.files[base];
      OnFileCapacity(file.buffer[..], file.index[..], part.view.frames, part.view.stub);
      ReopenedIndex(file.buffer[..], file.index[..], part.view.frames, part.view.stub);
      var r := OpenSegment(directory, base, file.buffer.Length, page, committed, part.view.frames, part.view.stub);
      if !r.Opened? {
        return false;
      }
      KeepsNow(r.sgm, part, committed);
      OwnersKept(home, owner, parts, r.sgm, part);
      LoadSegment(r.sgm, part, owner, directory.files);
      ok := true;
    }

    /** While segments are loaded, only the files loaded so far have a place in the log. */
    ghost predicate Loading(owner: map<object, nat>)
      reads this`parts, this`home, index
    {
      && index.footprint !! owner.Keys && this !in owner && index !in owner && directory !in owner && lock !in owner
      && OwnersAgree(home, owner, parts)
    }

    lemma LoadedHeld()
      requires Core() && stub == None && page > 0 && Loaded(directory.files) && directory.Imaged()
      requires IsPage(page) && page <= size < WORD && size % page == 0
      ensures Held() && |segments| == |parts| && JustOpened(parts, Marks())
      ensures directory.files.Keys == Bases(parts) ==> Valid()
    {
      hide Core, Bases, Directory.Imaged, JustOpened, Marks;
    }

    lemma NothingLoaded()
      requires segments == [] && parts == [] && page > 0
      ensures Loaded(directory.files)
    {
    }

    /** Committed reads have all entries of a log that was just opened. */
    lemma NothingWithheld()
      requires |segments| == |parts| && JustOpened(parts, Marks())
      ensures forall k :: !Withheld(k)
    {
    }

    /** What a sync needs, every segment has. */
    lemma ReadyToSync()
      requires Valid()
      ensures |segments| == |parts| && Tiles(parts) && AllSyncable(parts, Marks(), page, directory.durable)
    {
      hide Core, OnDisk, Exact, Syncable, SyncedTo, WellFormed, Marks;
      Separate();
      forall i | 0 <= i < |parts|
        ensures WellFormed(parts[i].view) && SyncedTo(parts[i].view, Marks()[i].s, Marks()[i].synced)
        ensures parts[i].base in directory.durable
        ensures Syncable(parts[i].view, Marks()[i], page, directory.durable[parts[i].base])
      {
        assert TiledAt(parts, i);
        Mapped(i);
      }
    }

    lemma ViewsOf()
      requires Valid()
      ensures |segments| == |parts|
      ensures forall i | 0 <= i < |parts| ::
                WellFormed(parts[i].view) && |parts[i].view.buffer| == segments[i].buffer.Length
    {
      hide Core, OnDisk, Exact, WellFormed;
      Separate();
      forall i | 0 <= i < |parts|
        ensures WellFormed(parts[i].view) && |parts[i].view.buffer| == segments[i].buffer.Length
      {
        assert TiledAt(parts, i);
        Mapped(i);
      }
    }

    /** Every segment is sound in memory and on disk. */
    lemma AllSoundNow()
      requires Valid() && Agreed(true)
      ensures |segments| == |parts| && Tiles(parts) && AllSound(parts, Marks(), directory.durable)
    {
      hide Core, OnDisk, Exact, Agrees, SyncedTo, WellFormed, Marks;
      Separate();
      forall i | 0 <= i < |parts| ensures SoundAt(parts, Marks(), directory.durable, i) {
        assert AgreesAt(parts, Marks(), directory.durable, i, true) && TiledAt(parts, i);
        Mapped(i);
      }
    }

    /** What the files of a closed log are, as mqlog_open will find them: the segments, and the stub after them. */
    ghost function OnFileParts(): seq<Part>
      requires Valid()
      reads this, index, index.footprint, home.Keys, directory
    {
      AllFoundAgain(parts) + if stub.None? then [] else [StubPart()]
    }

    ghost function StubPart(): Part
      requires Valid() && stub.Some?
      reads this, index, index.footprint, home.Keys, directory
    {
      Part(NextBase(parts), Reopened(stub.value.buffer[..], stub.value.index[..], [], true))
    }

    /** The base of the file that an array of the log maps. */
    ghost function Owner(): map<object, nat>
      reads this
    {
      map o | o in home :: if home[o] < |parts| then parts[home[o]].base else NextBase(parts)
    }

    lemma PartFile(i: nat)
      requires Valid() && i < |parts|
      ensures parts[i].base in directory.files
      ensures FileHolds(directory.files[parts[i].base], AllFoundAgain(parts)[i], Owner())
    {
      hide Tree.Valid, Seg.Segment.Valid, Bases, StubOnDisk, WellFormed, OnFile;
      assert At(i);
      assert TiledAt(parts, i);
      FoundOnFile(parts[i].view);
      InBounds(parts[i].view);
    }

    /** A segment is at least a page long, and so its index has room for an end marker. */
    lemma PartSlots(i: nat)
      requires Valid() && i < |parts|
      ensures FoundAgain(parts[i].view).w.index < |parts[i].view.index| <==>
              parts[i].view.w.index < |parts[i].view.index|
      ensures |FoundAgain(parts[i].view).index| == |parts[i].view.index|
      ensures |FoundAgain(parts[i].view).buffer| == |parts[i].view.buffer| >= 4096
    {
      hide Apart, Tree.Valid, Bases, StubOnDisk, WellFormed, Seg.Segment.Valid;
      assert TiledAt(parts, i) && At(i);
      FoundOnFile(parts[i].view);
      InBounds(parts[i].view);
      AtLeastAPage(|parts[i].view.buffer|, page);
      Slots(|parts[i].view.buffer|);
    }

    lemma StubFile()
      requires Valid() && stub.Some?
      ensures NextBase(parts) in directory.files && FileHolds(directory.files[NextBase(parts)], StubPart(), Owner())
      ensures WellFormed(StubPart().view) && |StubPart().view.buffer| == size && StubPart().base == NextBase(parts)
      ensures 1 == StubPart().view.w.index < |StubPart().view.index| && Entries(StubPart().view) == [Hole]
      ensures !LastEmpty(parts) && Tiles(parts)
    {
      hide Tree.Valid, Seg.Segment.Valid, Bases, Tiles, At, Finds, Flags, FrameSize, StubImage;
      Slots(size);
    }

    /** The directory of a log holds its segments, its stub, and nothing else. */
    lemma LeavesFiles()
      requires Valid()
      ensures Recorded(directory.files, OnFileParts(), Owner()) && directory !in Owner() && directory.Imaged()
      ensures Contents(OnFileParts()) == Contents(parts) + if Spent() then [Hole] else []
    {
      hide Tree.Valid, At, Finds, Covers, StubOnDisk, FileHolds, StubPart, Tiles, FoundAgain, Bases, WellFormed,
        Entries, Contents, LastEmpty;
      Separate();
      FoundTiles(parts);
      if stub.Some? {
        StubFile();
        PartAdded(AllFoundAgain(parts), StubPart());
      } else {
        assert OnFileParts() == AllFoundAgain(parts);
      }
      forall i | 0 <= i < |parts| {
        PartFile(i);
      }
    }

    /** Reopening finds the sizes and the slots that closing left. */
    lemma LeavesSlots(pages: nat)
      requires Valid() && pages > 0
      ensures SlotsLeft(OnFileParts()) <==> SlotsLeft(parts)
      ensures InPages(OnFileParts(), pages) <==> InPages(parts, pages) && (stub.Some? ==> size % pages == 0)
    {
      hide Core, OnDisk, Exact, FoundAgain, StubPart;
      if stub.Some? {
        StubFile();
        assert OnFileParts()[|parts|] == StubPart();
      }
      forall i | 0 <= i < |parts|
        ensures OnFileParts()[i].view.w.index < |OnFileParts()[i].view.index| <==>
                parts[i].view.w.index < |parts[i].view.index|
        ensures |OnFileParts()[i].view.buffer| == |parts[i].view.buffer|
      {
        PartSlots(i);
      }
      if SlotsLeft(OnFileParts()) {
        forall i | 0 <= i < |parts| ensures parts[i].view.w.index < |parts[i].view.index| {
          assert OnFileParts()[i].view.w.index < |OnFileParts()[i].view.index|;
        }
      }
      if InPages(OnFileParts(), pages) {
        forall i | 0 <= i < |parts| ensures |parts[i].view.buffer| % pages == 0 {
          assert |OnFileParts()[i].view.buffer| % pages == 0;
        }
      }
    }

    /** With large payloads only, the requirements of a write hold. */
    lemma Room(p: Payload)
      requires Valid() && AtLeast(Contents(parts), 84) && |p| >= 84
      ensures Tiles(parts) && LastHasSlot(parts, |p|) && NextBase(parts) == |Contents(parts)|
    {
      hide Apart, Finds, At, OnDisk, Exact, Contents, Tiles;
      LargeHasSlot(parts, p);
      ContentsLength(parts);
    }

    /** With larger ones, so do those of opening the log again. */
    lemma CanReopen()
      requires Valid() && AtLeast(Contents(parts), 86)
      ensures SlotsLeft(parts) && InPages(parts, page) && IsPage(page) && 0 < size < WORD && size % page == 0
    {
      hide Tree.Valid, Contents, Bases, StubOnDisk, Seg.Segment.Valid, WellFormed, FoundAgain;
      forall i | 0 <= i < |parts| ensures |parts[i].view.buffer| % page == 0 && |parts[i].view.buffer| >= 4096 {
        assert At(i);
        PartSlots(i);
      }
      LargerLeaveSlots(parts);
    }

    /** The keys of the index are the bases, in order. */
    lemma ReadsBases(pairs: seq<Shape.Pair<Seg.Segment>>, listing: seq<Shape.Key>)
      requires Valid() && pairs == index.contents && |listing| == |pairs|
      requires forall i | 0 <= i < |pairs| :: listing[i] == pairs[i].key
      ensures Ascends(listing) && forall b: Shape.Key :: b in listing <==> b in Bases(parts)
      ensures !LastEmpty(parts) ==> forall i | 0 <= i < |listing| :: listing[i] < NextBase(parts)
      ensures LastEmpty(parts) ==> listing != [] && listing[|listing| - 1] == NextBase(parts)
    {
      hide Tree.Valid, Seg.Segment.Valid, WellFormed, Covers, At, StubOnDisk;
      if !LastEmpty(parts) {
        BelowNext(parts);
      }
      forall i, j | 0 <= i < j < |listing| ensures listing[i] < listing[j] {
        assert TiledAt(parts, i);
        BasesAscend(parts, i, j);
      }
      forall b: Shape.Key ensures b in listing <==> b in Bases(parts) {
        if b in Bases(parts) {
          var i :| 0 <= i < |parts| && parts[i].base == b;
          assert listing[i] == b;
        }
      }
    }

    lemma StubKey()
      requires Valid()
      ensures Left() <==> NextBase(parts) in directory.files
      ensures Left() ==> NextBase(parts) < 0x1_0000_0000_0000_0000
      ensures forall b | b in directory.files :: b in Bases(parts) || (stub.Some? && b == NextBase(parts))
      ensures forall b | b in Bases(parts) :: b in directory.files
      ensures stub.Some? ==> !LastEmpty(parts)
    {
      hide Tree.Valid, At, Tiles, Covers, OnFile, StubImage;
      LeftFiles();
    }

    /** The directory, listed in ascending order. */
    method Listing() returns (listing: seq<Shape.Key>)
      requires Valid()
      modifies index`sharedLock
      ensures Valid()
      ensures Ascends(listing) && forall b: Shape.Key :: b in listing <==> b in directory.files
    {
      hide Tree.Valid, At, Covers, Contents, WellFormed, Tiles, OnDisk, Exact, Bases;
      Unlocked();
      var pairs := ReadFrom(index, 0);
      listing := seq(|pairs|, i requires 0 <= i < |pairs| => pairs[i].key);
      StartsAtZero();
      ReadsBases(pairs, listing);
      var sgm := LastSegment();
      StubKey();
      var next := if sgm == null then 0 else sgm.WriteOffset();
      if next in directory.files && (|listing| == 0 || listing[|listing| - 1] != next) {
        listing := listing + [next];
      }
    }

    /** What is on disk of the files that no segment has. */
    ghost function StubOnFile(): Option<Image>
      requires Valid()
      reads this, index, index.footprint, home.Keys, directory
    {
      if stub.None? then None else Some(directory.durable[NextBase(parts)])
    }

    lemma StubIsSound()
      requires Valid() && stub.Some?
      ensures StubSound(StubOnFile().value) && NextBase(parts) < 0x1_0000_0000_0000_0000 && !LastEmpty(parts)
    {
      hide Core, OnFile, StubImage, Covers, Bases, Directory.Imaged;
      StubImageOnFile(stub.value.buffer[..], stub.value.index[..], directory.durable[NextBase(parts)]);
      StubHasHeader(stub.value.buffer[..], stub.value.index[..], directory.durable[NextBase(parts)]);
    }

    /** The files that no segment has are on disk with their end marker. */
    ghost predicate StubKept()
      reads this`parts, this`stub, directory
    {
      StubKeptOn(directory.durable)
    }

    ghost predicate StubKeptOn(durable: map<nat, Image>)
      reads this`parts, this`stub
    {
      stub.Some? ==> NextBase(parts) in durable && KeepsMarker(durable[NextBase(parts)])
    }

    lemma StubThere()
      requires Valid()
      ensures stub.Some? ==> NextBase(parts) in directory.durable
    {
      hide Core, Covers, OnFile, StubImage;
    }

    lemma StubKeptIs()
      ensures StubKept() <==> StubKeptOn(directory.durable)
    {
    }

    /** A close leaves the files that no segment has as they are on disk. */
    lemma StubStays(marks: seq<Mark>, durable: map<nat, Image>, dataFaults: set<nat>, indexFaults: set<nat>)
      requires stub.Some? ==> NextBase(parts) in durable
      requires Valid()
      requires SyncedFirst(parts, marks, durable, Marks(), directory.durable, |parts|, page, dataFaults, indexFaults)
      ensures StubKeptOn(directory.durable) <==> StubKeptOn(durable)
    {
      hide Tree.Valid, At, Tiles, Covers, OnFile, StubImage, SyncedAt, Bases;
      assert parts[..|parts|] == parts;
      if stub.Some? {
        NextIsNew(parts);
      }
    }

    lemma NoStub()
      requires !Spent()
      ensures StubKept()
    {
    }

    lemma StubIsFound(whole: bool)
      requires Valid() && stub.Some?
      ensures NextBase(parts) in directory.durable
      ensures FoundOnDisk(StubPart().view, directory.durable[NextBase(parts)], whole) <==> StubKept()
    {
      hide Core, OnFile, StubImage, Covers, Bases, Directory.Imaged, FoundOnDisk;
      StubFound(stub.value.buffer[..], stub.value.index[..], directory.durable[NextBase(parts)], whole);
    }

    lemma FilesFound(whole: bool)
      requires Valid()
      ensures OnDiskAsFound(OnFileParts(), directory.durable, whole) <==>
                OnDiskAsFound(AllFoundAgain(parts), directory.durable, whole) && StubKept()
    {
      hide Core, OnDisk, Exact, OnDiskAsFound, StubPart, FoundOnDisk;
      if stub.Some? {
        StubFile();
        StubIsFound(whole);
        OneMoreFound(AllFoundAgain(parts), StubPart(), directory.durable, whole);
      } else {
        assert OnFileParts() == AllFoundAgain(parts);
      }
    }

    /** After a close without a fault on the data: what is on disk as it will be found. */
    lemma ClosedFound(marks: seq<Mark>, durable: map<nat, Image>, dataFaults: set<nat>, indexFaults: set<nat>)
      requires Valid() && AllSyncable(parts, marks, page, durable) && dataFaults !! Bases(parts)
      requires SyncedFirst(parts, marks, durable, Marks(), directory.durable, |parts|, page, dataFaults, indexFaults)
      ensures Agreed(false) ==> (OnDiskAsFound(OnFileParts(), directory.durable, false) <==> StubKept())
      ensures Agreed(true) ==>
                (OnDiskAsFound(OnFileParts(), directory.durable, true) <==>
                   AllSecure(parts, marks, page, indexFaults) && StubKept())
    {
      hide Core, OnDisk, Exact, OnDiskAsFound, Lasts, SyncedFirst, AllSyncable, AllSecure, AllLast, StubKept,
        OnFileParts;
      Separate();
      ClosedLast(parts, marks, durable, Marks(), directory.durable, page, dataFaults, indexFaults);
      if Agreed(false) {
        FilesFound(false);
        ClosedData(marks, durable, dataFaults, indexFaults);
      }
      if Agreed(true) {
        FilesFound(true);
        AllSoundNow();
        ClosedAreFoundWhole(parts, Marks(), directory.durable);
      }
    }

    lemma ClosedData(marks: seq<Mark>, durable: map<nat, Image>, dataFaults: set<nat>, indexFaults: set<nat>)
      requires Valid() && AllSyncable(parts, marks, page, durable) && dataFaults !! Bases(parts) && Agreed(false)
      requires SyncedFirst(parts, marks, durable, Marks(), directory.durable, |parts|, page, dataFaults, indexFaults)
      ensures OnDiskAsFound(AllFoundAgain(parts), directory.durable, false)
    {
      hide Core, OnDisk, Exact, OnDiskAsFound, SyncedFirst, Syncable, SyncedTo, WellFormed;
      Separate();
      forall i | 0 <= i < |parts| ensures parts[i].base in Bases(parts) {
      }
      ClosedAreFound(parts, marks, durable, Marks(), directory.durable, page, dataFaults, indexFaults);
    }
  }

  datatype LogOpening = OpenedLog(log: Log) | ELNOPGM | ELLDSGM

  /**
    load_segments into a new log, up to the first segment that cannot be loaded. The sync marks are set to
    the ends of the segments; nothing is flushed.
  */
  method LoadSegments(directory: Directory, listing: seq<Shape.Key>, size: nat, page: nat, committed: bool,
                      ghost parts: seq<Part>, ghost owner: map<object, nat>) returns (log: Log, ok: bool)
    requires IsPage(page) && page <= size < WORD && size % page == 0
    requires directory !in owner && Recorded(directory.files, parts, owner) && directory.Imaged()
    requires |listing| == |parts| && forall i | 0 <= i < |parts| :: listing[i] == parts[i].base
    ensures ok <==> InPages(parts, page) && SlotsLeft(parts)
    ensures fresh(log) && log.Held() && log.stub == None && !log.lock.held
    ensures log.size == size && log.page == page && log.committed == committed && log.directory == directory
    ensures fresh(log.lock) && fresh(log.index) && fresh(log.index.footprint) && fresh(log.home.Keys - owner.Keys)
    ensures log.parts == parts[..LoadedOf(parts, page)] && |log.segments| == |log.parts|
    ensures (forall i | 0 <= i < |log.segments| :: fresh(log.segments[i])) && JustOpened(log.parts, log.Marks())
    ensures ok ==> log.Valid() && log.parts == parts
  {
    hide Tree.Valid, Seg.Segment.Valid, WellFormed, OnFile, Log.At, Log.Finds, Bases, Reopened, FileHolds,
      OwnersAgree, Log.Marks, JustOpened, Directory.Imaged, CanLoad, InPages, SlotsLeft, Log.OnDisk, Log.Exact,
      Log.Loaded;
    log := new Log(size, page, committed, directory);
    NothingOwned(owner);
    log.NothingLoaded();
    LoadedToEnd(parts, page);
    ok := true;
    var i := 0;
    while ok && i < |listing|
      invariant 0 <= i <= |parts| && fresh(log) && fresh(log.index) && fresh(log.index.footprint) && fresh(log.lock)
      invariant log.Core() && log.parts == parts[..i] && |log.segments| == i && log.stub == None && !log.lock.held
      invariant log.Loading(owner)
      invariant fresh(log.home.Keys - owner.Keys)
      invariant log.Loaded(directory.files)
      invariant forall j | 0 <= j < i :: CanLoad(parts[j], page) && fresh(log.segments[j])
      invariant !ok ==> i < |parts| && !CanLoad(parts[i], page)
      decreases |listing| - i, ok
    {
      TilesPrefix(parts, i);
      ghost var file := directory.files[parts[i].base];
      assert old(FileHolds(file, parts[i], owner));
      assert unchanged(file.buffer) && unchanged(file.index);
      assert FileHolds(file, parts[i], owner);
      assert TiledAt(parts, i);
      assert parts[..i + 1] == parts[..i] + [parts[i]];
      ok := log.LoadNext(listing[i], parts[i], owner);
      if ok {
        i := i + 1;
      }
    }
    assert parts[..|parts|] == parts;
    log.LoadedHeld();
    if !ok {
      LoadedExactly(parts, page, i);
    }
  }

  /**
    mqlog_open, over a directory listed in ascending order: the log holds exactly what is on file. It fails
    exactly when the size is no multiple of the page size, or some file is not, or the index of some
    segment has no slot left. The files are mapped and not flushed, and yet no entry is withheld from
    committed reads: what those rely on is durable if and only if it was on disk before. When loading
    fails, the segments loaded so far are closed.
  */
  method Open(directory: Directory, listing: seq<Shape.Key>, size: nat, page: nat, committed: bool,
              ghost parts: seq<Part>, ghost owner: map<object, nat>) returns (r: LogOpening)
    requires IsPage(page) && 0 < size < WORD && directory !in owner
    requires Recorded(directory.files, parts, owner) && directory.Imaged()
    requires Ascends(listing) && forall b: Shape.Key :: b in listing <==> b in directory.files
    modifies directory`durable
    ensures directory.Imaged()
    ensures r == LogOpening.ELNOPGM <==> size % page != 0
    ensures r.OpenedLog? <==> size % page == 0 && InPages(parts, page) && SlotsLeft(parts)
    ensures r != ELLDSGM ==> directory.durable == old(directory.durable)
    ensures r == ELLDSGM ==>
              ClosedFirst(parts, old(directory.durable), directory.durable, LoadedOf(parts, page), page,
                          directory.dataFaults, directory.indexFaults)
    ensures forall whole | OnDiskAsFound(parts, old(directory.durable), whole) ::
              OnDiskAsFound(parts, directory.durable, whole)
    ensures r.OpenedLog? ==>
              && r.log.Valid() && r.log.parts == parts && r.log.stub == None && !r.log.lock.held
              && r.log.size == size && r.log.page == page && r.log.committed == committed
              && r.log.directory == directory
              && |r.log.segments| == |parts| && forall k :: !r.log.Withheld(k)
    ensures r.OpenedLog? ==>
              forall whole :: r.log.Agreed(whole) <==> OnDiskAsFound(parts, directory.durable, whole)
    ensures r.OpenedLog? ==>
              && fresh(r.log) && fresh(r.log.lock) && fresh(r.log.index) && fresh(r.log.index.footprint)
              && fresh(r.log.home.Keys - owner.Keys)
  {
    hide Log.Core, Log.OnDisk, Log.Exact, FileHolds, Tiles, Bases, SlotsLeft, InPages, OnDiskAsFound, JustOpened,
      AllAgree, Log.Withheld, Directory.Imaged, ClosedFirst;
    if size % page != 0 {
      return LogOpening.ELNOPGM;
    }
    AtLeastAPage(size, page);
    ListingIsOrder(listing, parts);
    var log, ok := LoadSegments(directory, listing, size, page, committed, parts, owner);
    if !ok {
      CloseLoaded(log, parts);
      return ELLDSGM;
    }
    log.NothingWithheld();
    forall whole ensures AllAgree(parts, log.Marks(), directory.durable, whole) <==>
                         OnDiskAsFound(parts, directory.durable, whole) {
      OpenedAllAgree(parts, log.Marks(), directory.durable, whole);
    }
    r := OpenedLog(log);
  }

  /** mqlog_close of a log that was not loaded to its end. */
  method CloseLoaded(log: Log, ghost parts: seq<Part>)
    requires log.Held() && Tiles(parts) && log.parts == parts[..LoadedOf(parts, log.page)]
    requires |log.segments| == |log.parts| && JustOpened(log.parts, log.Marks())
    modifies log.segments, log.index`sharedLock, log.directory`durable
    ensures log.directory.Imaged()
    ensures ClosedFirst(parts, old(log.directory.durable), log.directory.durable, LoadedOf(parts, log.page), log.page,
                        log.directory.dataFaults, log.directory.indexFaults)
    ensures forall whole | OnDiskAsFound(parts, old(log.directory.durable), whole) ::
              OnDiskAsFound(parts, log.directory.durable, whole)
  {
    hide Log.Core, Log.Covers, Tiles, Bases, OnDiskAsFound, JustOpened, AllAgree, Directory.Imaged, ClosedFirst,
      SyncedFirst;
    ghost var marks, durable := log.Marks(), log.directory.durable;
    log.PagesFit();
    var dataFaults, indexFaults := log.directory.dataFaults, log.directory.indexFaults;
    var errors, visited := log.Close(dataFaults, indexFaults);
    SyncedIsClosed(log.parts, marks, durable, log.Marks(), log.directory.durable, log.page, dataFaults, indexFaults);
    ClosedPrefix(parts, durable, log.directory.durable, LoadedOf(parts, log.page), log.page, dataFaults, indexFaults);
    forall whole | OnDiskAsFound(parts, durable, whole)
      ensures OnDiskAsFound(parts, log.directory.durable, whole)
    {
      ClosedStays(parts, durable, log.directory.durable, LoadedOf(parts, log.page), log.page, dataFaults, indexFaults,
                  whole);
    }
  }

  /**
    A log that is closed and opened again, with the directory listed in ascending order, holds what it
    held, whatever msync did; a payload that was refused counts as one more offset from then on, and the
    log takes payloads again. When no msync of data failed, what committed reads rely on is durable again
    if it was before, and the disk has all that the new marks say exactly when the close got every index
    there (`AllSecure`); a refused payload must have left its end marker on disk, too.
  */
  method Reopen(log: Log, listing: seq<Shape.Key>, size: nat, page: nat, dataFaults: set<nat>,
                indexFaults: set<nat>) returns (r: LogOpening)
    requires log.Valid() && IsPage(page) && 0 < size < WORD
    requires Ascends(listing) && forall b: Shape.Key :: b in listing <==> b in log.directory.files
    modifies log.segments, log.index`sharedLock, log.directory`durable
    ensures log.parts == old(log.parts) && log.stub == old(log.stub)
    ensures r.OpenedLog? <==>
              && size % page == 0 && InPages(log.parts, page) && (log.stub.Some? ==> log.size % page == 0)
              && SlotsLeft(log.parts)
    ensures r.OpenedLog? ==>
              && r.log.Valid() && r.log.stub == None && !r.log.lock.held && r.log.directory == log.directory
              && r.log.size == size && r.log.page == page && r.log.committed == log.committed
              && |r.log.segments| == |r.log.parts| && forall k :: !r.log.Withheld(k)
    ensures r.OpenedLog? ==> Contents(r.log.parts) == Contents(log.parts) + if log.Spent() then [Hole] else []
    ensures r.OpenedLog? ==>
              forall whole :: r.log.Agreed(whole) <==> OnDiskAsFound(r.log.parts, log.directory.durable, whole)
    ensures r.OpenedLog? ==> (log.StubKept() <==> old(log.StubKept()))
    ensures r.OpenedLog? && dataFaults !! Bases(log.parts) && old(log.Agreed(false)) ==>
              (r.log.Agreed(false) <==> log.StubKept())
    ensures r.OpenedLog? && dataFaults !! Bases(log.parts) && old(log.Agreed(true)) ==>
              (r.log.Agreed(true) <==>
                 AllSecure(log.parts, old(log.Marks()), log.page, indexFaults) && log.StubKept())
    ensures r.OpenedLog? ==>
              && fresh(r.log) && fresh(r.log.lock) && fresh(r.log.index) && fresh(r.log.index.footprint)
              && fresh(r.log.home.Keys - old(log.home.Keys))
  {
    hide Tree.Valid, Log.Core, Log.OnDisk, Log.Exact, FileHolds, Tiles, Contents, Recorded, InPages, SlotsLeft,
      AllAgree, OnDiskAsFound, Log.Spent, Log.Withheld, SyncedFirst, AllSyncable, AllSecure, Log.StubKept,
      Log.StubKeptOn, Bases;
    ghost var marks, durable := log.Marks(), log.directory.durable;
    log.ReadyToSync();
    log.StubThere();
    log.StubKeptIs();
    var errors, visited := log.Close(dataFaults, indexFaults);
    log.StubStays(marks, durable, dataFaults, indexFaults);
    log.LeavesFiles();
    log.LeavesSlots(page);
    if dataFaults !! Bases(log.parts) {
      log.ClosedFound(marks, durable, dataFaults, indexFaults);
    }
    log.StubKeptIs();
    r := Open(log.directory, listing, size, page, log.committed, log.OnFileParts(), log.Owner());
    log.StubKeptIs();
  }

  /** Segments are added, of the size that the log is opened with. */
  ghost predicate NewSized(before: seq<Seg.Segment>, after: seq<Seg.Segment>, size: nat) {
    before <= after && forall i | |before| <= i < |after| :: after[i].buffer.Length == size
  }

  lemma NothingNew(marks: seq<Mark>, segments: seq<Seg.Segment>, size: nat)
    ensures NewMarks(marks, marks) && NewSized(segments, segments, size)
  {
  }

  lemma SizedOn(log: Log, a: seq<Seg.Segment>, b: seq<Seg.Segment>)
    requires NewSized(a, b, log.size) && b <= log.segments && |log.segments| <= |b| + 1 && log.Sized()
    ensures NewSized(a, log.segments, log.size)
  {
  }

  /**
    A run of writes: each payload is appended, up to the first that no segment takes. Payloads of at
    least 84 bytes never run out of index slots.
  */
  method WriteAll(log: Log, payloads: seq<Payload>) returns (taken: nat)
    requires log.Valid() && log.Sized() && !log.Spent() && !log.lock.held
    requires AtLeast(Contents(log.parts), 84) && forall i | 0 <= i < |payloads| :: |payloads[i]| >= 84
    requires |Contents(log.parts)| + |payloads| < 0x1_0000_0000_0000_0000
    modifies log`segments, log`parts, log`stub, log`home, log.lock, log.directory`files, log.directory`durable
    modifies log.index, log.index.footprint, log.home.Keys
    ensures log.Valid() && !log.lock.held && taken <= |payloads|
    ensures fresh(log.home.Keys - old(log.home.Keys)) && fresh(log.index.footprint - old(log.index.footprint))
    ensures forall i | 0 <= i < taken :: |payloads[i]| + 2 * HEADER_SIZE <= log.size
    ensures taken < |payloads| ==> |payloads[taken]| + 2 * HEADER_SIZE > log.size
    ensures log.Spent() <==> taken < |payloads|
    ensures Contents(log.parts) == old(Contents(log.parts)) + Records(payloads[..taken])
    ensures NewMarks(old(log.Marks()), log.Marks()) && forall whole | old(log.Agreed(whole)) :: log.Agreed(whole)
    ensures NewSized(old(log.segments), log.segments, log.size)
    ensures log.directory.dataFaults == {} ==> log.StubKept()
  {
    hide Tree.Valid, Log.Core, Log.OnDisk, Log.Exact, Tiles, Contents, Log.Takes, Log.Withheld, Extends, Log.Spent,
      Log.Agreed, Log.Marks, NewMarks, NewSized, Log.Sized;
    log.Counted();
    log.NoStub();
    NothingNew(log.Marks(), log.segments, log.size);
    taken := 0;
    ghost var was := Contents(log.parts);
    var i := 0;
    while i < |payloads|
      invariant 0 <= taken <= i <= |payloads| && log.Valid() && log.Sized() && !log.lock.held
      invariant fresh(log.home.Keys - old(log.home.Keys)) && fresh(log.index.footprint - old(log.index.footprint))
      invariant Contents(log.parts) == was + Records(payloads[..taken]) && AtLeast(Contents(log.parts), 84)
      invariant forall j | 0 <= j < taken :: |payloads[j]| + 2 * HEADER_SIZE <= log.size
      invariant !log.Spent() ==> taken == i
      invariant log.Spent() ==> taken < i && |payloads[taken]| + 2 * HEADER_SIZE > log.size
      invariant forall whole | old(log.Agreed(whole)) :: log.Agreed(whole)
      invariant NewMarks(old(log.Marks()), log.Marks()) && |log.segments| == |log.parts|
      invariant NewSized(old(log.segments), log.segments, log.size)
      invariant log.directory.dataFaults == {} ==> log.StubKept()
    {
      log.Room(payloads[i]);
      log.TakesExactly(|payloads[i]|);
      assert payloads[..i + 1] == payloads[..i] + [payloads[i]];
      ghost var marks, segments := log.Marks(), log.segments;
      var r := log.Write(payloads[i]);
      NewMarksOn(old(log.Marks()), marks, log.Marks());
      SizedOn(log, old(log.segments), segments);
      if r.Written? {
        taken := taken + 1;
        log.NoStub();
      }
      i := i + 1;
    }
  }

  /**
    Whatever was written, in payloads of at least 86 bytes, the log can be closed and opened again, and
    holds the same entries. With shorter payloads recovery may fail (`SegmentRoom.EightyFourIsLost`). What
    is on disk is what the new marks say, if it was so before and the close gets every index there.
  */
  method WriteAndReopen(log: Log, payloads: seq<Payload>)
    returns (taken: nat, r: LogOpening, ghost marks: seq<Mark>)
    requires log.Valid() && log.Sized() && !log.Spent() && !log.lock.held
    requires AtLeast(Contents(log.parts), 86) && forall i | 0 <= i < |payloads| :: |payloads[i]| >= 86
    requires |Contents(log.parts)| + |payloads| < 0x1_0000_0000_0000_0000
    modifies log`segments, log`parts, log`stub, log`home, log.lock, log.directory`files, log.directory`durable
    modifies log.index, log.index.footprint, log.home.Keys
    ensures taken <= |payloads| && forall i | 0 <= i < taken :: |payloads[i]| + 2 * HEADER_SIZE <= log.size
    ensures taken < |payloads| ==> |payloads[taken]| + 2 * HEADER_SIZE > log.size
    ensures r.OpenedLog? && r.log.Valid() && r.log.stub == None && !r.log.lock.held && r.log.size == log.size
    ensures r.log.committed == log.committed && r.log.directory == log.directory
    ensures |r.log.segments| == |r.log.parts| && forall k :: !r.log.Withheld(k)
    ensures old(log.Agreed(false)) && (taken == |payloads| || log.directory.dataFaults == {}) ==> r.log.Agreed(false)
    ensures NewMarks(old(log.Marks()), marks) && |marks| == |log.parts|
    ensures forall i | |old(log.segments)| <= i < |log.parts| ::
              WellFormed(log.parts[i].view) && |log.parts[i].view.buffer| == log.size
    ensures old(log.Agreed(true)) && (taken == |payloads| || log.directory.dataFaults == {}) ==>
              (r.log.Agreed(true) <==> AllSecure(log.parts, marks, log.page, {}))
    ensures Contents(r.log.parts) ==
              old(Contents(log.parts)) + Records(payloads[..taken]) + if taken < |payloads| then [Hole] else []
  {
    hide Tree.Valid, Log.Core, Log.OnDisk, Log.Exact, Tiles, Contents, InPages, SlotsLeft, Log.Agreed, Log.Withheld,
      Log.StubKept, Log.StubKeptOn, NewMarks, AllSecure;
    taken := WriteAll(log, payloads);
    if taken == |payloads| {
      log.NoStub();
    }
    log.CanReopen();
    log.ViewsOf();
    marks := log.Marks();
    var listing := log.Listing();
    log.InHome();
    r := Reopen(log, listing, log.size, log.page, {}, {});
  }

  /** The same from an empty directory: the log then holds the payloads up to the first oversized one, and no others. */
  method RoundTrip(size: nat, page: nat, committed: bool, payloads: seq<Payload>) returns (taken: nat, r: LogOpening)
    requires IsPage(page) && 0 < size < WORD && size % page == 0
    requires |payloads| < 0x1_0000_0000_0000_0000 && forall i | 0 <= i < |payloads| :: |payloads[i]| >= 86
    ensures taken <= |payloads| && forall i | 0 <= i < taken :: |payloads[i]| + 2 * HEADER_SIZE <= size
    ensures taken < |payloads| ==> |payloads[taken]| + 2 * HEADER_SIZE > size
    ensures r.OpenedLog? && r.log.Valid() && r.log.committed == committed && |r.log.segments| == |r.log.parts|
    ensures r.log.Agreed(false) && (size < 0x8000_0000 ==> r.log.Agreed(true))
    ensures Contents(r.log.parts) == Records(payloads[..taken]) + if taken < |payloads| then [Hole] else []
  {
    hide Tree.Valid, Log.Core, Log.OnDisk, Log.Exact;
    var directory := new Directory();
    var opening := Open(directory, [], size, page, committed, [], map[]);
    ghost var marks;
    taken, r, marks := WriteAndReopen(opening.log, payloads);
    if size < 0x8000_0000 {
      AllNew(opening.log, marks);
    }
  }

  /** Segments that were never synced are on disk as a whole after a close. */
  lemma AllNew(log: Log, marks: seq<Mark>)
    requires |marks| == |log.parts| && NewMarks([], marks) && log.page > 0 && log.size < 0x8000_0000
    requires forall i | 0 <= i < |log.parts| ::
               WellFormed(log.parts[i].view) && |log.parts[i].view.buffer| == log.size
    ensures AllSecure(log.parts, marks, log.page, {})
  {
    hide WellFormed, Secures;
    forall i | 0 <= i < |log.parts| ensures Secures(log.parts[i].view, marks[i], log.page, true) {
      NeverSynced(log.parts[i].view, log.page);
    }
  }
}
