/**
  What of the log of src/mqlog.c is on disk, as values: the marks of its segments, what msync has put into
  their files, and what recovery finds there when the power is lost.
*/
module MqlogDisk {
  import opened Prot
  import opened SegmentDisk
  import opened SegmentLayout
  import opened MqlogLayout

  // What of a log is on disk.

  ghost predicate AgreesAt(parts: seq<Part>, marks: seq<Mark>, durable: map<nat, Image>, i: nat, whole: bool)
    requires i < |parts| == |marks|
  {
    parts[i].base in durable && Agrees(parts[i].view, marks[i], durable[parts[i].base], whole)
  }

  /** The files on disk are, for every segment, what its mark says: the data alone, or the whole. */
  ghost predicate AllAgree(parts: seq<Part>, marks: seq<Mark>, durable: map<nat, Image>, whole: bool) {
    |marks| == |parts| && forall i | 0 <= i < |parts| :: AgreesAt(parts, marks, durable, i, whole)
  }

  /** Files of other bases do not matter. */
  lemma AgreeBesides(parts: seq<Part>, marks: seq<Mark>, durable: map<nat, Image>, durable': map<nat, Image>, b: nat,
                     whole: bool)
    requires AllAgree(parts, marks, durable, whole) && forall i | 0 <= i < |parts| :: parts[i].base != b
    requires forall c | c in durable && c != b :: c in durable' && durable'[c] == durable[c]
    ensures AllAgree(parts, marks, durable', whole)
  {
    hide Agrees;
    forall i | 0 <= i < |parts| ensures AgreesAt(parts, marks, durable', i, whole) {
      assert AgreesAt(parts, marks, durable, i, whole);
    }
  }

  lemma AgreeAdded(parts: seq<Part>, marks: seq<Mark>, durable: map<nat, Image>, p: Part, m: Mark, whole: bool)
    requires AllAgree(parts, marks, durable, whole) && p.base in durable && Agrees(p.view, m, durable[p.base], whole)
    ensures AllAgree(parts + [p], marks + [m], durable, whole)
  {
    hide Agrees;
    forall i | 0 <= i <= |parts| ensures AgreesAt(parts + [p], marks + [m], durable, i, whole) {
      assert i < |parts| ==> AgreesAt(parts, marks, durable, i, whole);
    }
  }

  /** A segment is added, on new files. */
  lemma AgreeGrown(parts: seq<Part>, marks: seq<Mark>, durable: map<nat, Image>, p: Part, m: Mark, d: Image,
                   whole: bool)
    requires Tiles(parts) && !LastEmpty(parts) && p.base == NextBase(parts)
    requires AllAgree(parts, marks, durable, whole)
    ensures AllAgree(parts, marks, durable[p.base := d], whole)
    ensures Agrees(p.view, m, d, whole) ==> AllAgree(parts + [p], marks + [m], durable[p.base := d], whole)
  {
    hide Agrees, Tiles, AllAgree;
    BelowNext(parts);
    AgreeBesides(parts, marks, durable, durable[p.base := d], p.base, whole);
    if Agrees(p.view, m, d, whole) {
      AgreeAdded(parts, marks, durable[p.base := d], p, m, whole);
    }
  }

  lemma OtherBase(parts: seq<Part>, i: nat, j: nat)
    requires Tiles(parts) && i < |parts| && j < |parts| && i != j
    ensures parts[i].base != parts[j].base
  {
    hide WellFormed;
    assert TiledAt(parts, i) && TiledAt(parts, j);
    if i < j {
      BasesAscend(parts, i, j);
    } else {
      BasesAscend(parts, j, i);
    }
  }

  /** What happens to one segment and its files does not matter to the others. */
  lemma AgreeChanged(parts: seq<Part>, parts': seq<Part>, marks: seq<Mark>, marks': seq<Mark>,
                     durable: map<nat, Image>, durable': map<nat, Image>, g: nat, whole: bool)
    requires Tiles(parts) && AllAgree(parts, marks, durable, whole)
    requires g < |parts| == |parts'| == |marks'| && parts'[g].base == parts[g].base
    requires forall i | 0 <= i < |parts| && i != g :: parts'[i] == parts[i] && marks'[i] == marks[i]
    requires forall c | c in durable && c != parts[g].base :: c in durable' && durable'[c] == durable[c]
    requires AgreesAt(parts', marks', durable', g, whole)
    ensures AllAgree(parts', marks', durable', whole)
  {
    hide Agrees, Tiles;
    forall i | 0 <= i < |parts| ensures AgreesAt(parts', marks', durable', i, whole) {
      assert AgreesAt(parts, marks, durable, i, whole);
      if i != g {
        OtherBase(parts, i, g);
      }
    }
  }

  /** Whether a sync of a segment reports success, when msync of its data and of its index does or fails. */
  predicate Completes(part: Part, m: Mark, page: nat, dataOk: bool, indexOk: bool) {
    page > 0 && dataOk && SyncCompletes(m.s.data, part.view.w.data, page, indexOk)
  }

  /** The marks after a sync of segment `g`, and the files on disk. */
  function MarksSynced(parts: seq<Part>, marks: seq<Mark>, durable: map<nat, Image>, g: nat, page: nat, dataOk: bool,
                       indexOk: bool): (after: seq<Mark>)
    requires g < |parts| == |marks| && parts[g].base in durable
    ensures |after| == |marks|
  {
    marks[g := MarkAfterSync(parts[g].view, marks[g], page, dataOk, indexOk, durable[parts[g].base])]
  }

  function DiskSynced(parts: seq<Part>, marks: seq<Mark>, durable: map<nat, Image>, g: nat, page: nat, dataOk: bool,
                      indexOk: bool): map<nat, Image>
    requires g < |parts| == |marks| && parts[g].base in durable
  {
    durable[parts[g].base := AfterSync(parts[g].view, marks[g], page, dataOk, indexOk, durable[parts[g].base])]
  }

  /** The same for the last segment, if there is one. */
  function LastSynced(parts: seq<Part>, marks: seq<Mark>, durable: map<nat, Image>, page: nat, dataOk: bool,
                      indexOk: bool): (seq<Mark>, map<nat, Image>)
  {
    var n := |parts| - 1;
    if parts == [] || |marks| != |parts| || parts[n].base !in durable then (marks, durable)
    else (MarksSynced(parts, marks, durable, n, page, dataOk, indexOk),
          DiskSynced(parts, marks, durable, n, page, dataOk, indexOk))
  }

  /** So do the syncs of the first `n` segments, with faults of msync at some bases. */
  ghost predicate AllComplete(parts: seq<Part>, marks: seq<Mark>, n: nat, page: nat, dataFaults: set<nat>,
                              indexFaults: set<nat>)
    requires n <= |parts| == |marks|
  {
    forall i | 0 <= i < n ::
      Completes(parts[i], marks[i], page, parts[i].base !in dataFaults, parts[i].base !in indexFaults)
  }

  /** How many of them fail. */
  ghost function Failures(parts: seq<Part>, marks: seq<Mark>, n: nat, page: nat, dataFaults: set<nat>,
                          indexFaults: set<nat>): (k: nat)
    requires n <= |parts| == |marks|
    ensures k <= n && (k == 0 <==> AllComplete(parts, marks, n, page, dataFaults, indexFaults))
  {
    if n == 0 then 0 else
      var i := n - 1;
      Failures(parts, marks, i, page, dataFaults, indexFaults)
        + if Completes(parts[i], marks[i], page, parts[i].base !in dataFaults, parts[i].base !in indexFaults) then 0
          else 1
  }

  predicate LastCompletes(parts: seq<Part>, marks: seq<Mark>, page: nat, dataOk: bool, indexOk: bool) {
    var n := |parts| - 1;
    parts == [] || |marks| != |parts| || Completes(parts[n], marks[n], page, dataOk, indexOk)
  }

  lemma AgreeSynced(parts: seq<Part>, marks: seq<Mark>, durable: map<nat, Image>, g: nat, page: nat, dataOk: bool,
                    indexOk: bool, whole: bool)
    requires Tiles(parts) && AllAgree(parts, marks, durable, whole) && g < |parts| && page > 0
    requires SyncedTo(parts[g].view, marks[g].s, marks[g].synced)
    ensures parts[g].base in durable
    ensures AllAgree(parts, MarksSynced(parts, marks, durable, g, page, dataOk, indexOk),
                     DiskSynced(parts, marks, durable, g, page, dataOk, indexOk), whole)
  {
    hide WellFormed, SyncedTo, Agrees, MarkAfterSync, AfterSync;
    assert AgreesAt(parts, marks, durable, g, whole) && TiledAt(parts, g);
    SyncKeepsAgreed(parts[g].view, marks[g], page, dataOk, indexOk, durable[parts[g].base], whole);
    AgreeChanged(parts, parts, marks, MarksSynced(parts, marks, durable, g, page, dataOk, indexOk), durable,
                 DiskSynced(parts, marks, durable, g, page, dataOk, indexOk), g, whole);
  }

  /** The first `n` segments were synced, but for the faults of msync at some bases; all else on disk is as it was. */
  ghost predicate SyncedFirst(parts: seq<Part>, marks: seq<Mark>, durable: map<nat, Image>, marks': seq<Mark>,
                              durable': map<nat, Image>, n: nat, page: nat, dataFaults: set<nat>,
                              indexFaults: set<nat>)
    requires n <= |parts|
  {
    && |marks| == |marks'| == |parts| && durable'.Keys == durable.Keys && Bases(parts) <= durable.Keys
    && (forall i | 0 <= i < n ::
          SyncedAt(parts, marks, durable, marks', durable', i, page, dataFaults, indexFaults))
    && (forall i | n <= i < |parts| :: marks'[i] == marks[i])
    && (forall b | b in durable && b !in Bases(parts[..n]) :: durable'[b] == durable[b])
  }

  ghost predicate SyncedAt(parts: seq<Part>, marks: seq<Mark>, durable: map<nat, Image>, marks': seq<Mark>,
                           durable': map<nat, Image>, i: nat, page: nat, dataFaults: set<nat>, indexFaults: set<nat>)
    requires i < |parts| == |marks| == |marks'|
  {
    var b := parts[i].base;
    && b in durable && b in durable'
    && marks'[i] == MarkAfterSync(parts[i].view, marks[i], page, b !in dataFaults, b !in indexFaults, durable[b])
    && durable'[b] == AfterSync(parts[i].view, marks[i], page, b !in dataFaults, b !in indexFaults, durable[b])
  }

  lemma SyncedNext(parts: seq<Part>, marks: seq<Mark>, durable: map<nat, Image>, marks': seq<Mark>,
                   durable': map<nat, Image>, g: nat, page: nat, dataFaults: set<nat>, indexFaults: set<nat>)
    requires Tiles(parts) && g < |parts|
    requires SyncedFirst(parts, marks, durable, marks', durable', g, page, dataFaults, indexFaults)
    ensures parts[g].base in durable'
    ensures
      var dataOk, indexOk := parts[g].base !in dataFaults, parts[g].base !in indexFaults;
      SyncedFirst(parts, marks, durable, MarksSynced(parts, marks', durable', g, page, dataOk, indexOk),
                  DiskSynced(parts, marks', durable', g, page, dataOk, indexOk), g + 1, page, dataFaults, indexFaults)
  {
    hide Tiles, MarkAfterSync, AfterSync;
    assert parts[g].base in Bases(parts);
    NotAmong(parts, g);
    BasesSnoc(parts[..g], parts[g]);
    assert parts[..g + 1] == parts[..g] + [parts[g]];
    var dataOk, indexOk := parts[g].base !in dataFaults, parts[g].base !in indexFaults;
    var after := MarksSynced(parts, marks', durable', g, page, dataOk, indexOk);
    var disk := DiskSynced(parts, marks', durable', g, page, dataOk, indexOk);
    forall i | 0 <= i < g
      ensures SyncedAt(parts, marks, durable, after, disk, i, page, dataFaults, indexFaults)
    {
      OtherBase(parts, i, g);
      assert SyncedAt(parts, marks, durable, marks', durable', i, page, dataFaults, indexFaults);
    }
  }

  lemma NotAmong(parts: seq<Part>, g: nat)
    requires Tiles(parts) && g < |parts|
    ensures parts[g].base !in Bases(parts[..g])
  {
    hide Tiles;
    TilesPrefix(parts, g);
    NextIsNew(parts[..g]);
  }

  // Loss of power.

  /** Segment `i` as it was, its mark, and its files on disk, which are as sound as a run of steps leaves them. */
  ghost predicate SoundAt(parts: seq<Part>, marks: seq<Mark>, durable: map<nat, Image>, i: nat)
    requires i < |parts| == |marks|
  {
    && WellFormed(parts[i].view) && SyncedTo(parts[i].view, marks[i].s, marks[i].synced)
    && AgreesAt(parts, marks, durable, i, true)
  }

  ghost predicate AllSound(parts: seq<Part>, marks: seq<Mark>, durable: map<nat, Image>) {
    |parts| == |marks| && forall i | 0 <= i < |parts| :: SoundAt(parts, marks, durable, i)
  }

  function LostView(v: View, m: Mark, d: Image): View
    requires m.synced <= |v.frames| && (m.synced > 0 ==> m.s.index <= m.synced) && HEADER_SIZE <= |d.data|
  {
    Reopened(d.data, d.index, Kept(v, m), KeptStub(m, d))
  }

  /** What a segment on disk is, against what it was. */
  lemma LostOnFile(v: View, m: Mark, d: Image)
    requires WellFormed(v) && SyncedTo(v, m.s, m.synced) && Sound(v, m, d)
    ensures m.synced <= |v.frames| && (m.synced > 0 ==> m.s.index <= m.synced) && HEADER_SIZE <= |d.data|
    ensures OnFile(d.data, d.index, Kept(v, m), KeptStub(m, d)) && WellFormed(LostView(v, m, d))
    ensures v.frames != [] ==>
              LostView(v, m, d).w.index == |Kept(v, m)| && Entries(LostView(v, m, d)) == Records(Kept(v, m))
    ensures v.stub ==> LostView(v, m, d).w.index == 1 && Entries(LostView(v, m, d)) == [Hole]
  {
    hide Holds, Indexed, OnFile, IsHeader;
    PowerLossLeaves(v, m, d);
    OnFileSound(d.data, d.index, Kept(v, m), KeptStub(m, d));
    NoStubKept(v, m, d);
  }

  lemma NoStubKept(v: View, m: Mark, d: Image)
    requires WellFormed(v) && SyncedTo(v, m.s, m.synced) && Sound(v, m, d)
    ensures HEADER_SIZE <= |d.data|
    ensures v.frames != [] ==> !KeptStub(m, d)
    ensures v.stub ==> KeptStub(m, d)
  {
    hide Holds, Indexed, Flags, FrameSize;
    if v.stub {
      SameHeader(d.data, v.buffer);
    }
  }

  ghost function LostPart(parts: seq<Part>, marks: seq<Mark>, durable: map<nat, Image>, i: nat): Part
    requires i < |parts| == |marks| && SoundAt(parts, marks, durable, i)
  {
    LostOnFile(parts[i].view, marks[i], durable[parts[i].base]);
    Part(parts[i].base, LostView(parts[i].view, marks[i], durable[parts[i].base]))
  }

  ghost function Lost(parts: seq<Part>, marks: seq<Mark>, durable: map<nat, Image>): seq<Part>
    requires AllSound(parts, marks, durable)
  {
    seq(|parts|, i requires 0 <= i < |parts| && SoundAt(parts, marks, durable, i) => LostPart(parts, marks, durable, i))
  }

  lemma LostAt(parts: seq<Part>, marks: seq<Mark>, durable: map<nat, Image>, i: nat)
    requires AllSound(parts, marks, durable) && i < |parts|
    ensures
      var (lost, v) := (Lost(parts, marks, durable)[i], parts[i].view);
      && lost.base == parts[i].base && WellFormed(lost.view) && WellFormed(v)
      && (v.w.index > 0 ==> (lost.view.w.index == v.w.index <==> Lasts(v, marks[i])))
      && (v.w.index > 0 && Lasts(v, marks[i]) ==> Entries(lost.view) == Entries(v))
      && (v.w.index == 0 ==> Lasts(v, marks[i]) && Entries(v) == [])
  {
    hide WellFormed, OnFile, Sound, SyncedTo, LostView, Lasts;
    assert SoundAt(parts, marks, durable, i);
    var v, m := parts[i].view, marks[i];
    LostOnFile(v, m, durable[parts[i].base]);
    LastsExactly(v, m);
    EndSynced(v);
    if v.w.index > 0 {
      SomeEntry(v);
      if v.stub {
        StubLasts(v, m);
      } else if |Kept(v, m)| == |v.frames| {
        assert Kept(v, m) == v.frames;
      }
    }
  }

  lemma StubLasts(v: View, m: Mark)
    requires v.stub
    ensures Lasts(v, m)
  {
  }

  /** The first `n` segments would be found on disk with all they hold, by their marks. */
  ghost predicate AllLast(parts: seq<Part>, marks: seq<Mark>, n: nat)
    requires n <= |parts| == |marks|
  {
    forall i | 0 <= i < n :: Lasts(parts[i].view, marks[i])
  }

  /**
    After the loss of power the segments tile the offsets again if and only if the marks of all but the last
    are at their ends. What is found is then a prefix of the log, cut off in the last segment.
  */
  lemma LostTiles(parts: seq<Part>, marks: seq<Mark>, durable: map<nat, Image>)
    requires Tiles(parts) && AllSound(parts, marks, durable)
    ensures Tiles(Lost(parts, marks, durable)) <==> AllLast(parts, marks, if parts == [] then 0 else |parts| - 1)
    ensures Tiles(Lost(parts, marks, durable)) && parts != [] ==>
              Contents(Lost(parts, marks, durable)) ==
                Contents(parts[..|parts| - 1]) + Entries(Lost(parts, marks, durable)[|parts| - 1].view)
  {
    hide WellFormed, AllSound, Lost, Entries, Lasts;
    var lost := Lost(parts, marks, durable);
    SameLength(parts, marks, durable);
    forall i | 0 <= i < |parts|
      ensures lost[i].base == parts[i].base && WellFormed(lost[i].view) && TiledAt(parts, i)
      ensures parts[i].view.w.index > 0 ==>
                (lost[i].view.w.index == parts[i].view.w.index <==> Lasts(parts[i].view, marks[i]))
    {
      LostAt(parts, marks, durable, i);
      assert TiledAt(parts, i);
    }
    if parts != [] && AllLast(parts, marks, |parts| - 1) {
      forall i | 0 <= i < |parts| ensures TiledAt(lost, i) {
        assert i > 0 ==> Lasts(parts[i - 1].view, marks[i - 1]);
        assert i + 1 < |parts| ==> Lasts(parts[i].view, marks[i]);
      }
    }
    if Tiles(lost) {
      forall i | 0 <= i < |parts| - 1
        ensures Lasts(parts[i].view, marks[i]) && Entries(lost[i].view) == Entries(parts[i].view)
      {
        assert TiledAt(lost, i + 1) && TiledAt(parts, i + 1);
        LostAt(parts, marks, durable, i);
      }
      if parts != [] {
        SameContents(lost[..|parts| - 1], parts[..|parts| - 1]);
      }
    }
  }

  /** The files of a payload that was refused, as they are on disk. */
  function LostStub(d: Image): View
    requires HEADER_SIZE <= |d.data|
  {
    Reopened(d.data, d.index, [], IsHeader(d.data, 0))
  }

  ghost predicate StubSound(d: Image) {
    HEADER_SIZE <= |d.data| && OnFile(d.data, d.index, [], IsHeader(d.data, 0))
  }

  /** All files on disk: those of the segments, and those that no segment has, after them. */
  ghost function LostFiles(parts: seq<Part>, marks: seq<Mark>, durable: map<nat, Image>, stub: Option<Image>): seq<Part>
    requires AllSound(parts, marks, durable)
    requires stub.Some? ==> StubSound(stub.value) && NextBase(parts) < 0x1_0000_0000_0000_0000
  {
    Lost(parts, marks, durable) + if stub.None? then [] else [Part(NextBase(parts), LostStub(stub.value))]
  }

  /** The same for all files: only the last of them may be found with less than it had. */
  lemma LostFilesTile(parts: seq<Part>, marks: seq<Mark>, durable: map<nat, Image>, stub: Option<Image>)
    requires Tiles(parts) && AllSound(parts, marks, durable)
    requires stub.Some? ==>
               StubSound(stub.value) && NextBase(parts) < 0x1_0000_0000_0000_0000 && !LastEmpty(parts)
    ensures
      var files := LostFiles(parts, marks, durable, stub);
      && |files| == |parts| + (if stub.Some? then 1 else 0)
      && (Tiles(files) <==> AllLast(parts, marks, if files == [] then 0 else |files| - 1))
      && (Tiles(files) && files != [] ==>
            Contents(files) == Contents(parts[..|files| - 1]) + Entries(files[|files| - 1].view))
  {
    hide WellFormed, AllSound, Lost, Entries, Tiles, Contents, AllLast, Reopened;
    var lost, n := Lost(parts, marks, durable), |parts|;
    SameLength(parts, marks, durable);
    LostTiles(parts, marks, durable);
    if stub.None? {
      assert LostFiles(parts, marks, durable, stub) == lost;
    } else {
      var last := Part(NextBase(parts), LostStub(stub.value));
      OnFileSound(stub.value.data, stub.value.index, [], IsHeader(stub.value.data, 0));
      StubFollows(parts, marks, durable, last);
      assert parts[..n] == parts;
      ContentsSnoc(lost, last);
      if n > 0 {
        LostContents(parts, marks, durable);
      }
    }
  }

  /** A file after the last segment has its place if and only if that segment is found with all it holds. */
  lemma StubFollows(parts: seq<Part>, marks: seq<Mark>, durable: map<nat, Image>, last: Part)
    requires Tiles(parts) && AllSound(parts, marks, durable) && !LastEmpty(parts)
    requires last.base == NextBase(parts) && WellFormed(last.view)
    ensures |marks| == |parts|
    ensures Tiles(Lost(parts, marks, durable) + [last]) <==> AllLast(parts, marks, |parts|)
  {
    hide WellFormed, AllSound, Lost, Entries, Lasts;
    var lost, n := Lost(parts, marks, durable), |parts|;
    SameLength(parts, marks, durable);
    LostTiles(parts, marks, durable);
    if n > 0 {
      LostAt(parts, marks, durable, n - 1);
    }
    if AllLast(parts, marks, n) {
      assert n > 0 ==> Lasts(parts[n - 1].view, marks[n - 1]);
      PartAdded(lost, last);
    }
    if Tiles(lost + [last]) {
      TilesPrefix(lost + [last], n);
      assert (lost + [last])[..n] == lost;
      assert n > 0 ==> TiledAt(lost + [last], n);
    }
  }

  /** When every segment lasts, everything is found. */
  lemma LostContents(parts: seq<Part>, marks: seq<Mark>, durable: map<nat, Image>)
    requires Tiles(parts) && AllSound(parts, marks, durable) && parts != []
    ensures |marks| == |parts|
    ensures AllLast(parts, marks, |parts|) ==> Contents(parts) <= Contents(Lost(parts, marks, durable))
    ensures AllLast(parts, marks, |parts|) && !LastEmpty(parts) ==>
              Contents(Lost(parts, marks, durable)) == Contents(parts)
  {
    hide WellFormed, AllSound, Lost, Entries, Tiles, Lasts;
    var n := |parts| - 1;
    SameLength(parts, marks, durable);
    LostTiles(parts, marks, durable);
    LostAt(parts, marks, durable, n);
  }

  /** Nothing is lost with the power if and only if the marks of all segments are at their ends. */
  lemma NothingIsLost(parts: seq<Part>, marks: seq<Mark>, durable: map<nat, Image>, stub: Option<Image>)
    requires Tiles(parts) && AllSound(parts, marks, durable)
    requires stub.Some? ==>
               StubSound(stub.value) && NextBase(parts) < 0x1_0000_0000_0000_0000 && !LastEmpty(parts)
    ensures
      var files := LostFiles(parts, marks, durable, stub);
      Tiles(files) && Contents(parts) <= Contents(files) <==> AllLast(parts, marks, |parts|)
  {
    hide WellFormed, AllSound, Lost, Entries, Tiles, Reopened, Lasts, LostFiles;
    var files, n := LostFiles(parts, marks, durable, stub), |parts|;
    LostFilesTile(parts, marks, durable, stub);
    assert parts[..n] == parts;
    if n > 0 {
      LostContents(parts, marks, durable);
      if stub.None? {
        LastFound(parts, marks, durable);
      }
    }
  }

  /** Without other files, nothing is lost only if nothing of the last segment is. */
  lemma LastFound(parts: seq<Part>, marks: seq<Mark>, durable: map<nat, Image>)
    requires Tiles(parts) && AllSound(parts, marks, durable) && parts != []
    ensures LostFiles(parts, marks, durable, None) == Lost(parts, marks, durable) && |marks| == |parts|
    ensures
      var (lost, n) := (Lost(parts, marks, durable), |parts| - 1);
      Tiles(lost) && Contents(parts) <= Contents(lost) ==> Lasts(parts[n].view, marks[n])
  {
    hide WellFormed, AllSound, Lost, Entries, Lasts;
    var lost, n := Lost(parts, marks, durable), |parts| - 1;
    SameLength(parts, marks, durable);
    LostTiles(parts, marks, durable);
    LostAt(parts, marks, durable, n);
    if parts[n].view.w.index > 0 {
      LostShorter(parts, marks, durable, n);
    }
    EntriesLength(lost[n].view);
    EntriesLength(parts[n].view);
  }

  lemma LostShorter(parts: seq<Part>, marks: seq<Mark>, durable: map<nat, Image>, i: nat)
    requires AllSound(parts, marks, durable) && i < |parts| && parts[i].view.w.index > 0
    ensures Lost(parts, marks, durable)[i].view.w.index <= parts[i].view.w.index
  {
    hide WellFormed, OnFile, Sound, SyncedTo, LostView;
    assert SoundAt(parts, marks, durable, i);
    LostOnFile(parts[i].view, marks[i], durable[parts[i].base]);
    EndSynced(parts[i].view);
    SomeEntry(parts[i].view);
  }

  lemma SameLength(parts: seq<Part>, marks: seq<Mark>, durable: map<nat, Image>)
    requires AllSound(parts, marks, durable)
    ensures |Lost(parts, marks, durable)| == |parts| == |marks|
  {
  }

  lemma {:induction false} SameContents(a: seq<Part>, b: seq<Part>)
    requires |a| == |b| && forall i | 0 <= i < |a| :: Entries(a[i].view) == Entries(b[i].view)
    ensures Contents(a) == Contents(b)
  {
    if a != [] {
      SameContents(a[..|a| - 1], b[..|b| - 1]);
    }
  }

  // What opening takes for durable.

  /** The files of every segment are on disk as they are found. */
  ghost predicate OnDiskAsFound(parts: seq<Part>, durable: map<nat, Image>, whole: bool) {
    forall i | 0 <= i < |parts| ::
      parts[i].base in durable && FoundOnDisk(parts[i].view, durable[parts[i].base], whole)
  }

  /** Segments as they are opened, with every mark at the end. */
  ghost predicate JustOpened(parts: seq<Part>, marks: seq<Mark>) {
    && |marks| == |parts|
    && forall i | 0 <= i < |parts| ::
         var v := parts[i].view;
         (v.eos ==> v.stub) && v.w.index < |v.index| && marks[i] == Mark(v.w, |v.frames|)
  }

  /** The marks of a log that was just opened say what is durable if and only if the files were there on disk. */
  lemma OpenedAllAgree(parts: seq<Part>, marks: seq<Mark>, durable: map<nat, Image>, whole: bool)
    requires Tiles(parts) && JustOpened(parts, marks)
    ensures AllAgree(parts, marks, durable, whole) <==> OnDiskAsFound(parts, durable, whole)
  {
    hide WellFormed, Agrees, FoundOnDisk;
    forall i | 0 <= i < |parts|
      ensures AgreesAt(parts, marks, durable, i, whole) <==>
                parts[i].base in durable && FoundOnDisk(parts[i].view, durable[parts[i].base], whole)
    {
      assert TiledAt(parts, i);
      if parts[i].base in durable {
        OpenedAgrees(parts[i].view, durable[parts[i].base], whole);
      }
    }
  }

  /** Closed without a fault of msync on the data, a segment is on disk as it will be found. */
  lemma ClosedIsFound(v: View, m: Mark, d: Image)
    requires WellFormed(v) && m.s.data == v.w.data && DataSafe(v, m, d)
    ensures DataOnDisk(FoundAgain(v), d)
  {
    hide Holds, Indexed, Flags, FrameSize;
    PrefixOfPrefix(d.data, v.buffer, v.w.data, FoundAgain(v).w.data);
  }

  /** And so is the log: what committed reads rely on when it is opened again is durable. */
  lemma ClosedAreFound(parts: seq<Part>, marks: seq<Mark>, durable: map<nat, Image>, marks': seq<Mark>,
                       durable': map<nat, Image>, page: nat, dataFaults: set<nat>, indexFaults: set<nat>)
    requires Tiles(parts) && AllAgree(parts, marks', durable', false)
    requires SyncedFirst(parts, marks, durable, marks', durable', |parts|, page, dataFaults, indexFaults)
    requires forall i | 0 <= i < |parts| ::
               && parts[i].base !in dataFaults && parts[i].base in durable
               && Syncable(parts[i].view, marks[i], page, durable[parts[i].base])
    ensures OnDiskAsFound(AllFoundAgain(parts), durable', false)
  {
    hide WellFormed, DataSafe, AfterSync, FoundAgain, Syncable;
    forall i | 0 <= i < |parts|
      ensures parts[i].base in durable' && DataOnDisk(FoundAgain(parts[i].view), durable'[parts[i].base])
    {
      assert TiledAt(parts, i) && AgreesAt(parts, marks', durable', i, false);
      assert SyncedAt(parts, marks, durable, marks', durable', i, page, dataFaults, indexFaults);
      ClosedIsFound(parts[i].view, marks'[i], durable'[parts[i].base]);
    }
  }

  /**
    Closed so, with data and index as its mark says, a segment is on disk as it will be found if and only if
    its mark is at its end.
  */
  lemma ClosedIsFoundWhole(v: View, m: Mark, d: Image)
    requires WellFormed(v) && SyncedTo(v, m.s, m.synced) && Sound(v, m, d)
    requires m.s.data == v.w.data && m.synced == |v.frames|
    ensures AllOnDisk(FoundAgain(v), d) <==> Lasts(v, m)
  {
    hide Holds, Flags, FrameSize, IsHeader, Offset;
    ClosedIsFound(v, m, d);
    IndexFound(v, m, d);
    if v.frames != [] {
      OffsetsAscend(v.frames, 0, |v.frames|);
    }
  }

  lemma IndexFound(v: View, m: Mark, d: Image)
    requires WellFormed(v) && SyncedTo(v, m.s, m.synced) && IndexSafe(v, m, d) && m.synced == |v.frames|
    ensures d.index == v.index <==> Lasts(v, m)
  {
    hide Holds, Flags, FrameSize, IsHeader, Offset;
    FirstOffset(v.frames);
    forall i | 0 < i < |v.frames| ensures v.index[i] > 0 {
      OffsetsAscend(v.frames, 0, i);
    }
    if Lasts(v, m) {
      forall i | 0 <= i < |v.index| ensures d.index[i] == v.index[i] {
        assert i < m.s.index ==> d.index[i] == d.index[..m.s.index][i] == v.index[..m.s.index][i];
      }
    } else {
      LastSlot(v, m, d);
    }
  }

  lemma LastSlot(v: View, m: Mark, d: Image)
    requires WellFormed(v) && SyncedTo(v, m.s, m.synced) && IndexSafe(v, m, d) && m.synced == |v.frames|
    requires !Lasts(v, m)
    ensures 1 < |v.frames| <= |v.index| == |d.index| && m.s.index < |v.frames| && d.index[|v.frames| - 1] == 0
  {
    hide Holds, Flags, FrameSize, IsHeader, Offset;
  }

  /** The same for a log. */
  lemma ClosedAreFoundWhole(parts: seq<Part>, marks: seq<Mark>, durable: map<nat, Image>)
    requires Tiles(parts) && AllSound(parts, marks, durable)
    requires forall i | 0 <= i < |parts| ::
               marks[i].s.data == parts[i].view.w.data && marks[i].synced == |parts[i].view.frames|
    ensures |marks| == |parts|
    ensures OnDiskAsFound(AllFoundAgain(parts), durable, true) <==> AllLast(parts, marks, |parts|)
  {
    hide WellFormed, SyncedTo, Sound, Lasts, AllOnDisk, FoundAgain;
    forall i | 0 <= i < |parts|
      ensures parts[i].base in durable
      ensures AllOnDisk(FoundAgain(parts[i].view), durable[parts[i].base]) <==> Lasts(parts[i].view, marks[i])
    {
      assert SoundAt(parts, marks, durable, i);
      ClosedIsFoundWhole(parts[i].view, marks[i], durable[parts[i].base]);
    }
    var found := AllFoundAgain(parts);
    if OnDiskAsFound(found, durable, true) {
      forall i | 0 <= i < |parts| ensures Lasts(parts[i].view, marks[i]) {
        assert FoundOnDisk(found[i].view, durable[found[i].base], true);
      }
    }
  }

  /** A close gets every segment there, with faults of msync of the index at some bases. */
  ghost predicate AllSecure(parts: seq<Part>, marks: seq<Mark>, page: nat, indexFaults: set<nat>) {
    |parts| == |marks| && forall i | 0 <= i < |parts| ::
      Secures(parts[i].view, marks[i], page, parts[i].base !in indexFaults)
  }

  /** Old segments keep their marks; new ones have none of their frames below theirs. */
  ghost predicate NewMarks(marks: seq<Mark>, marks': seq<Mark>) {
    marks <= marks' && forall i | |marks| <= i < |marks'| :: marks'[i] == Mark(Position(0, 0), 0)
  }

  lemma NewMarksOn(a: seq<Mark>, b: seq<Mark>, c: seq<Mark>)
    requires NewMarks(a, b) && NewMarks(b, c)
    ensures NewMarks(a, c)
  {
  }

  /** A close gets a segment there that was never synced, unless its data come to two gigabytes. */
  lemma NeverSynced(v: View, page: nat)
    requires WellFormed(v) && page > 0 && |v.buffer| < 0x8000_0000
    ensures Secures(v, Mark(Position(0, 0), 0), page, true)
  {
    hide Holds, Indexed, Flags, FrameSize, Offset;
    if v.frames != [] {
      OffsetsAscend(v.frames, 0, |v.frames|);
    }
    InBounds(v);
  }

  /** What a sync of every segment needs. */
  ghost predicate AllSyncable(parts: seq<Part>, marks: seq<Mark>, page: nat, durable: map<nat, Image>) {
    && |parts| == |marks|
    && forall i | 0 <= i < |parts| ::
         && WellFormed(parts[i].view) && SyncedTo(parts[i].view, marks[i].s, marks[i].synced)
         && parts[i].base in durable && Syncable(parts[i].view, marks[i], page, durable[parts[i].base])
  }

  lemma ClosedLast(parts: seq<Part>, marks: seq<Mark>, durable: map<nat, Image>, marks': seq<Mark>,
                   durable': map<nat, Image>, page: nat, dataFaults: set<nat>, indexFaults: set<nat>)
    requires AllSyncable(parts, marks, page, durable) && dataFaults !! Bases(parts)
    requires SyncedFirst(parts, marks, durable, marks', durable', |parts|, page, dataFaults, indexFaults)
    ensures |marks'| == |parts|
    ensures forall i | 0 <= i < |parts| ::
              marks'[i].s.data == parts[i].view.w.data && marks'[i].synced == |parts[i].view.frames|
    ensures AllLast(parts, marks', |parts|) <==> AllSecure(parts, marks, page, indexFaults)
  {
    hide WellFormed, SyncedTo, Lasts, Secures, AfterSync;
    forall i | 0 <= i < |parts|
      ensures Lasts(parts[i].view, marks'[i]) <==>
                Secures(parts[i].view, marks[i], page, parts[i].base !in indexFaults)
      ensures marks'[i].s.data == parts[i].view.w.data && marks'[i].synced == |parts[i].view.frames|
    {
      assert SyncedAt(parts, marks, durable, marks', durable', i, page, dataFaults, indexFaults);
      assert parts[i].base in Bases(parts);
      SecuresExactly(parts[i].view, marks[i], page, parts[i].base !in indexFaults, durable[parts[i].base]);
    }
  }

  /** For a close without an error it does not take the faults to say so. */
  lemma SecureIfDone(parts: seq<Part>, marks: seq<Mark>, durable: map<nat, Image>, page: nat, dataFaults: set<nat>,
                     indexFaults: set<nat>)
    requires AllSyncable(parts, marks, page, durable)
    requires AllComplete(parts, marks, |parts|, page, dataFaults, indexFaults)
    ensures dataFaults !! Bases(parts)
    ensures AllSecure(parts, marks, page, indexFaults) <==>
              forall i | 0 <= i < |parts| :: SecuresIfDone(parts[i].view, marks[i], page)
  {
    hide WellFormed, SyncedTo, Secures, SecuresIfDone, SyncCompletes;
    forall i | 0 <= i < |parts|
      ensures Secures(parts[i].view, marks[i], page, parts[i].base !in indexFaults) <==>
                SecuresIfDone(parts[i].view, marks[i], page)
      ensures parts[i].base !in dataFaults
    {
      assert Completes(parts[i], marks[i], page, parts[i].base !in dataFaults, parts[i].base !in indexFaults);
      CompletedSecures(parts[i].view, marks[i], page, parts[i].base !in indexFaults, durable[parts[i].base]);
    }
  }

  lemma OneMoreFound(parts: seq<Part>, p: Part, durable: map<nat, Image>, whole: bool)
    ensures OnDiskAsFound(parts + [p], durable, whole) <==>
              OnDiskAsFound(parts, durable, whole) && p.base in durable && FoundOnDisk(p.view, durable[p.base], whole)
  {
    hide FoundOnDisk;
    var all := parts + [p];
    if OnDiskAsFound(all, durable, whole) {
      assert all[|parts|] == p;
      forall i | 0 <= i < |parts|
        ensures parts[i].base in durable && FoundOnDisk(parts[i].view, durable[parts[i].base], whole)
      {
        assert all[i] == parts[i];
      }
    }
  }

  /** An end marker is on disk at the start of the data. */
  predicate KeepsMarker(d: Image) {
    HEADER_SIZE <= |d.data| && IsHeader(d.data, 0)
  }

  /** When msync does not fail, closing a segment that took nothing puts its end marker on disk. */
  lemma MarkerIsFlushed(v: View, m: Mark, page: nat, indexOk: bool, d: Image)
    requires EndedAtOnce(v, m) && page >= 4096 && SameSize(v, d) && OnFile(v.buffer, v.index, [], true)
    requires |v.index| > 0
    ensures KeepsMarker(AfterSync(v, m, page, true, indexOk, d))
  {
    hide FlushLength, Flags, FrameSize, Holds, Indexed, IsHeader;
    WithinPage(m.s.data, page);
    FlushCovers(d.data, v.buffer, 0, HEADER_SIZE);
    SameHeader(AfterSync(v, m, page, true, indexOk, d).data, v.buffer);
    EosIsHeader(AfterSync(v, m, page, true, indexOk, d).data);
  }

  lemma StubSizes(buffer: seq<byte>, index: seq<nat>, d: Image)
    requires StubImage(buffer, index, d)
    ensures |d.data| == |buffer| && |d.index| == |index|
  {
  }

  lemma EosIsHeader(b: seq<byte>)
    requires HEADER_SIZE <= |b| && Flags(b, 0) == FLAGS_EOS
    ensures IsHeader(b, 0)
  {
  }

  /** The files of a refused payload are on disk if and only if their end marker is. */
  lemma StubFound(buffer: seq<byte>, index: seq<nat>, d: Image, whole: bool)
    requires OnFile(buffer, index, [], true) && StubImage(buffer, index, d)
    ensures FoundOnDisk(Reopened(buffer, index, [], true), d, whole) <==> KeepsMarker(d)
  {
    hide Flags, FrameSize, Holds;
    if d.data[..HEADER_SIZE] == buffer[..HEADER_SIZE] {
      SameHeader(d.data, buffer);
    }
  }

  // A log that is not loaded to its end.

  /** The files of a segment can be opened: they are whole pages, and the index has a slot left. */
  predicate CanLoad(part: Part, page: nat)
    requires page > 0
  {
    |part.view.buffer| % page == 0 && part.view.w.index < |part.view.index|
  }

  /** How many segments are loaded, before the first that cannot be. */
  function LoadedOf(parts: seq<Part>, page: nat): (n: nat)
    requires page > 0
    ensures n <= |parts| && (forall i | 0 <= i < n :: CanLoad(parts[i], page))
    ensures n < |parts| ==> !CanLoad(parts[n], page)
  {
    if parts == [] || !CanLoad(parts[0], page) then 0 else 1 + LoadedOf(parts[1..], page)
  }

  lemma LoadedExactly(parts: seq<Part>, page: nat, n: nat)
    requires page > 0 && n < |parts| && !CanLoad(parts[n], page) && forall i | 0 <= i < n :: CanLoad(parts[i], page)
    ensures LoadedOf(parts, page) == n
  {
  }

  lemma LoadedToEnd(parts: seq<Part>, page: nat)
    requires page > 0
    ensures LoadedOf(parts, page) == |parts| <==> InPages(parts, page) && SlotsLeft(parts)
  {
    if InPages(parts, page) && SlotsLeft(parts) {
      assert forall i | 0 <= i < |parts| :: CanLoad(parts[i], page);
    }
    if LoadedOf(parts, page) == |parts| {
      forall i | 0 <= i < |parts|
        ensures |parts[i].view.buffer| % page == 0 && parts[i].view.w.index < |parts[i].view.index|
      {
        assert CanLoad(parts[i], page);
      }
    }
  }

  /** On disk, the file of a segment that was opened and closed. */
  predicate OnlyClosed(part: Part, d: Image, d': Image, page: nat, dataFaults: set<nat>, indexFaults: set<nat>) {
    d' == AfterSync(part.view, Mark(part.view.w, |part.view.frames|), page, part.base !in dataFaults,
                    part.base !in indexFaults, d)
  }

  /** On disk, the first `n` files were closed so, and nothing else has changed. */
  ghost predicate ClosedFirst(parts: seq<Part>, durable: map<nat, Image>, durable': map<nat, Image>, n: nat, page: nat,
                              dataFaults: set<nat>, indexFaults: set<nat>)
    requires n <= |parts|
  {
    && durable'.Keys == durable.Keys && Bases(parts[..n]) <= durable.Keys
    && (forall b | b in durable && b !in Bases(parts[..n]) :: durable'[b] == durable[b])
    && (forall i | 0 <= i < n ::
          && parts[i].base in durable && parts[i].base in durable'
          && OnlyClosed(parts[i], durable[parts[i].base], durable'[parts[i].base], page, dataFaults, indexFaults))
  }

  lemma SyncedIsClosed(parts: seq<Part>, marks: seq<Mark>, durable: map<nat, Image>, marks': seq<Mark>,
                       durable': map<nat, Image>, page: nat, dataFaults: set<nat>, indexFaults: set<nat>)
    requires JustOpened(parts, marks)
    requires SyncedFirst(parts, marks, durable, marks', durable', |parts|, page, dataFaults, indexFaults)
    ensures ClosedFirst(parts, durable, durable', |parts|, page, dataFaults, indexFaults)
  {
    hide AfterSync, MarkAfterSync;
    assert parts[..|parts|] == parts;
    forall i | 0 <= i < |parts|
      ensures parts[i].base in durable && parts[i].base in durable'
      ensures OnlyClosed(parts[i], durable[parts[i].base], durable'[parts[i].base], page, dataFaults, indexFaults)
    {
      assert SyncedAt(parts, marks, durable, marks', durable', i, page, dataFaults, indexFaults);
    }
  }

  lemma ClosedPrefix(parts: seq<Part>, durable: map<nat, Image>, durable': map<nat, Image>, n: nat, page: nat,
                     dataFaults: set<nat>, indexFaults: set<nat>)
    requires n <= |parts| && ClosedFirst(parts[..n], durable, durable', n, page, dataFaults, indexFaults)
    ensures ClosedFirst(parts, durable, durable', n, page, dataFaults, indexFaults)
  {
    hide OnlyClosed;
    assert parts[..n][..n] == parts[..n];
    forall i | 0 <= i < n
      ensures parts[i].base in durable && parts[i].base in durable'
      ensures OnlyClosed(parts[i], durable[parts[i].base], durable'[parts[i].base], page, dataFaults, indexFaults)
    {
      assert parts[..n][i] == parts[i];
    }
  }

  /** What was on disk as it is found stays so. */
  lemma ClosedStays(parts: seq<Part>, durable: map<nat, Image>, durable': map<nat, Image>, n: nat, page: nat,
                    dataFaults: set<nat>, indexFaults: set<nat>, whole: bool)
    requires Tiles(parts) && n <= |parts| && page > 0
    requires ClosedFirst(parts, durable, durable', n, page, dataFaults, indexFaults)
    requires OnDiskAsFound(parts, durable, whole)
    ensures OnDiskAsFound(parts, durable', whole)
  {
    hide Tiles, OnlyClosed, FoundOnDisk;
    forall i | 0 <= i < |parts|
      ensures parts[i].base in durable' && FoundOnDisk(parts[i].view, durable'[parts[i].base], whole)
    {
      if i < n {
        ClosedOneStays(parts[i], durable[parts[i].base], durable'[parts[i].base], page, dataFaults, indexFaults, whole);
      } else {
        NotBefore(parts, n, i);
      }
    }
  }

  lemma NotBefore(parts: seq<Part>, n: nat, i: nat)
    requires Tiles(parts) && n <= i < |parts|
    ensures parts[i].base !in Bases(parts[..n])
  {
    hide Tiles;
    if parts[i].base in Bases(parts[..n]) {
      var j :| 0 <= j < n && parts[..n][j].base == parts[i].base;
      OtherBase(parts, j, i);
    }
  }

  lemma ClosedOneStays(part: Part, d: Image, d': Image, page: nat, dataFaults: set<nat>, indexFaults: set<nat>,
                       whole: bool)
    requires OnlyClosed(part, d, d', page, dataFaults, indexFaults) && FoundOnDisk(part.view, d, whole) && page > 0
    ensures FoundOnDisk(part.view, d', whole)
  {
    ResyncStays(part.view, d, page, part.base !in dataFaults, part.base !in indexFaults, whole);
  }

  lemma ResyncStays(v: View, d: Image, page: nat, dataOk: bool, indexOk: bool, whole: bool)
    requires FoundOnDisk(v, d, whole) && page > 0
    ensures FoundOnDisk(v, AfterSync(v, Mark(v.w, |v.frames|), page, dataOk, indexOk, d), whole)
  {
    hide IsHeader, FlushLength, PageDiff;
    if Syncable(v, Mark(v.w, |v.frames|), page, d) && dataOk {
      var from := v.w.data - PageDiff(v.w.data, page);
      FlushCovers(d.data, v.buffer, from, v.w.data);
      PrefixOfPrefix(d.data, v.buffer, v.w.data, from);
      if v.w.data == 0 {
        assert Flushed(d.data, v.buffer, 0, 0) == d.data;
      }
      if whole {
        assert Flushed(v.index, v.index, v.w.index - PageDiff(8 * v.w.index, page) / 8, v.w.index) == v.index;
      }
    }
  }
}
