/**
  What the log of src/mqlog.c holds, as values: the segments in the order of its index, each with
  its base offset. Offsets count the entries of all segments one after the other.
*/
module MqlogLayout {
  import opened Prot
  import opened SegmentDisk
  import opened SegmentLayout
  import Room = SegmentRoom
  import Shape = MbpTreeShape

  /** A segment of the log and the offset of its first entry. */
  datatype Part = Part(base: Shape.Key, view: View)

  /**
    What an offset of the log holds: a payload, or the place that is used up by a file with an end
    marker alone, once such a file has been loaded.
  */
  datatype Entry = Record(payload: Payload) | Hole

  function Entries(v: View): seq<Entry> {
    if v.stub then [Hole] else Records(v.frames)
  }

  function Records(payloads: seq<Payload>): seq<Entry> {
    seq(|payloads|, i requires 0 <= i < |payloads| => Record(payloads[i]))
  }

  /** What the log holds. */
  function Contents(parts: seq<Part>): seq<Entry> {
    if parts == [] then [] else Contents(parts[..|parts| - 1]) + Entries(parts[|parts| - 1].view)
  }

  /** The offset after the last segment: segment_write_offset of the last one. */
  function NextBase(parts: seq<Part>): nat {
    if parts == [] then 0 else parts[|parts| - 1].base + parts[|parts| - 1].view.w.index
  }

  ghost predicate Tiles(parts: seq<Part>) {
    forall i | 0 <= i < |parts| :: TiledAt(parts, i)
  }

  /** Segment `i` is sound and begins where the one before it ends; only the last one may hold nothing. */
  ghost predicate TiledAt(parts: seq<Part>, i: nat)
    requires i < |parts|
  {
    && WellFormed(parts[i].view) && (i + 1 < |parts| ==> parts[i].view.w.index > 0)
    && parts[i].base == if i == 0 then 0 else parts[i - 1].base + parts[i - 1].view.w.index
  }

  /** A last segment without entries, as a crash after its creation leaves it. */
  predicate LastEmpty(parts: seq<Part>) {
    parts != [] && parts[|parts| - 1].view.w.index == 0
  }

  lemma EntriesLength(v: View)
    requires WellFormed(v)
    ensures |Entries(v)| == v.w.index
  {
    hide Holds, Indexed, Flags, FrameSize, Offset;
  }

  /** Bases ascend strictly, and stay below the next one. */
  lemma {:induction false} BasesAscend(parts: seq<Part>, i: nat, j: nat)
    requires Tiles(parts) && i < j <= |parts|
    ensures parts[i].base + parts[i].view.w.index <= if j < |parts| then parts[j].base else NextBase(parts)
    decreases j
  {
    hide WellFormed;
    assert j < |parts| ==> TiledAt(parts, j);
    if i + 1 < j {
      BasesAscend(parts, i, j - 1);
    }
  }

  lemma TilesPrefix(parts: seq<Part>, n: nat)
    requires Tiles(parts) && n <= |parts|
    ensures Tiles(parts[..n]) && (n < |parts| ==> !LastEmpty(parts[..n]))
    ensures NextBase(parts[..n]) == if n < |parts| then parts[n].base else NextBase(parts)
  {
    hide WellFormed;
    forall i | 0 <= i < n ensures TiledAt(parts[..n], i) && (i + 1 < |parts| ==> parts[i].view.w.index > 0) {
      assert TiledAt(parts, i);
    }
    assert n < |parts| ==> TiledAt(parts, n);
    assert n == |parts| ==> parts[..n] == parts;
  }

  /** Every offset below the next base is in the contents, none above. */
  lemma {:induction false} ContentsLength(parts: seq<Part>)
    requires Tiles(parts)
    ensures |Contents(parts)| == NextBase(parts)
  {
    hide WellFormed, Entries;
    if parts != [] {
      var n := |parts| - 1;
      assert TiledAt(parts, n);
      TilesPrefix(parts, n);
      ContentsLength(parts[..n]);
      EntriesLength(parts[n].view);
    }
  }

  /** The segments tile the offsets: entry `j` of segment `i` is at its base plus `j`, and nowhere else. */
  lemma {:induction false} ContentsAt(parts: seq<Part>, i: nat, j: nat)
    requires Tiles(parts) && i < |parts| && j < parts[i].view.w.index
    ensures parts[i].base + j < |Contents(parts)| && |Entries(parts[i].view)| == parts[i].view.w.index
    ensures Contents(parts)[parts[i].base + j] == Entries(parts[i].view)[j]
  {
    hide WellFormed, Entries;
    var n := |parts| - 1;
    assert TiledAt(parts, n) && TiledAt(parts, i);
    TilesPrefix(parts, n);
    ContentsLength(parts[..n]);
    EntriesLength(parts[n].view);
    if i < n {
      ContentsAt(parts[..n], i, j);
    }
  }

  /** No two segments hold the same offset. */
  lemma OneSegment(parts: seq<Part>, i: nat, j: nat, offset: nat)
    requires Tiles(parts) && i < |parts| && j < |parts|
    requires parts[i].base <= offset < parts[i].base + |parts[i].view.frames|
    requires parts[j].base <= offset < parts[j].base + |parts[j].view.frames|
    ensures i == j
  {
    hide WellFormed;
    assert TiledAt(parts, i) && TiledAt(parts, j);
    EndSynced(parts[i].view);
    EndSynced(parts[j].view);
    if i < j {
      BasesAscend(parts, i, j);
    } else if j < i {
      BasesAscend(parts, j, i);
    }
  }

  /** The last segment whose base is not above an offset is where the offset is found, if anywhere. */
  lemma FloorFinds(parts: seq<Part>, g: nat, offset: nat)
    requires Tiles(parts) && g < |parts| && parts[g].base <= offset
    requires forall q | g < q < |parts| :: offset < parts[q].base
    ensures |Entries(parts[g].view)| == parts[g].view.w.index
    ensures offset < |Contents(parts)| <==> offset - parts[g].base < parts[g].view.w.index
    ensures offset < |Contents(parts)| ==> Contents(parts)[offset] == Entries(parts[g].view)[offset - parts[g].base]
  {
    hide WellFormed, Entries, Contents;
    assert TiledAt(parts, g);
    EntriesLength(parts[g].view);
    ContentsLength(parts);
    if g + 1 < |parts| {
      assert TiledAt(parts, g + 1);
      BasesAscend(parts, g + 1, |parts|);
    }
    if offset - parts[g].base < parts[g].view.w.index {
      ContentsAt(parts, g, offset - parts[g].base);
    }
  }

  lemma NothingFound(parts: seq<Part>, offset: nat)
    requires Tiles(parts) && forall q | 0 <= q < |parts| :: offset < parts[q].base
    ensures Contents(parts) == []
  {
    hide WellFormed;
    assert parts != [] ==> TiledAt(parts, 0);
  }

  lemma ContentsSnoc(parts: seq<Part>, p: Part)
    ensures Contents(parts + [p]) == Contents(parts) + Entries(p.view)
  {
    assert (parts + [p])[..|parts|] == parts;
  }

  /** The check of a write, and the room: the last segment takes `n` more bytes. */
  ghost predicate LastTakes(parts: seq<Part>, n: nat)
    requires Tiles(parts)
  {
    && parts != []
    && LastInBounds(parts)
    && !MarkedEos(parts[|parts| - 1].view) && Fits(parts[|parts| - 1].view, n)
  }

  ghost predicate LastInBounds(parts: seq<Part>)
    requires parts != []
  {
    parts[|parts| - 1].view.w.data <= |parts[|parts| - 1].view.buffer|
  }

  function WithLast(parts: seq<Part>, v: View): seq<Part>
    requires parts != []
  {
    parts[|parts| - 1 := Part(parts[|parts| - 1].base, v)]
  }

  /** The last segment may change its view. */
  lemma LastChanges(parts: seq<Part>, v: View)
    requires Tiles(parts) && parts != [] && WellFormed(v)
    ensures Tiles(WithLast(parts, v))
    ensures Contents(WithLast(parts, v)) == Contents(parts[..|parts| - 1]) + Entries(v)
  {
    hide WellFormed, Entries;
    var after := WithLast(parts, v);
    forall i | 0 <= i < |after| ensures TiledAt(after, i) {
      assert TiledAt(parts, i);
    }
    assert after[..|parts| - 1] == parts[..|parts| - 1];
  }

  /** Later segments are added, and the frames of a segment are only added to. */
  ghost predicate Extends(before: seq<Part>, after: seq<Part>) {
    && |before| <= |after|
    && forall i | 0 <= i < |before| ::
         && after[i].base == before[i].base && after[i].view.stub == before[i].view.stub
         && before[i].view.frames <= after[i].view.frames
  }

  lemma LastExtends(parts: seq<Part>, v: View)
    requires parts != [] && parts[|parts| - 1].view.stub == v.stub && parts[|parts| - 1].view.frames <= v.frames
    ensures Extends(parts, WithLast(parts, v))
  {
  }

  lemma WriteExtends(parts: seq<Part>, p: Payload)
    requires Tiles(parts) && LastTakes(parts, |p|)
    requires var v := parts[|parts| - 1].view; |v.buffer| < WORD && v.w.index < |v.index|
    ensures
      var after := WithLast(parts, AfterWrite(parts[|parts| - 1].view, p));
      Tiles(after) && Contents(after) == Contents(parts) + [Record(p)] && Extends(parts, after) && !LastEmpty(after)
  {
    hide WellFormed, Fits, PutFrame, Extends;
    var v := parts[|parts| - 1].view;
    assert TiledAt(parts, |parts| - 1);
    WriteKeeps(v, p);
    LastChanges(parts, AfterWrite(v, p));
    LastExtends(parts, AfterWrite(v, p));
    assert Entries(AfterWrite(v, p)) == Entries(v) + [Record(p)];
    assert Contents(parts) == Contents(parts[..|parts| - 1]) + Entries(v);
  }

  /** The payloads that a segment takes would fit into an empty one; an empty one takes them all unless it has ended. */
  lemma RoomAtAll(v: View, n: nat)
    requires WellFormed(v)
    ensures v.w.data <= |v.buffer| && (!MarkedEos(v) && Fits(v, n) ==> n + 2 * HEADER_SIZE <= |v.buffer|)
    ensures v.w.index > 0 ==> !EndedEmpty(v)
    ensures v.w.index == 0 ==>
              (!MarkedEos(v) && Fits(v, n) <==> !EndedEmpty(v) && n + 2 * HEADER_SIZE <= |v.buffer|)
  {
    hide Holds, Indexed, Flags, FrameSize;
    InBounds(v);
    if v.eos {
      EndedIsMarked(v);
    }
  }

  /** Ending a segment changes no offset. */
  lemma EndKeepsContents(parts: seq<Part>)
    requires Tiles(parts) && parts != [] && LastInBounds(parts) && !MarkedEos(parts[|parts| - 1].view)
    ensures
      var v := parts[|parts| - 1].view;
      && v.w.data + HEADER_SIZE <= |v.buffer|
      && var after := WithLast(parts, AfterEos(v));
      && Tiles(after) && Contents(after) == Contents(parts) && NextBase(after) == NextBase(parts)
      && LastInBounds(after) && MarkedEos(AfterEos(v)) && Extends(parts, after)
  {
    hide WellFormed, PutEos, Extends;
    var v := parts[|parts| - 1].view;
    assert TiledAt(parts, |parts| - 1);
    EosKeeps(v);
    LastChanges(parts, AfterEos(v));
    LastExtends(parts, AfterEos(v));
    EndedIsMarked(AfterEos(v));
    assert Entries(AfterEos(v)) == Entries(v);
  }

  /** An index slot is left for a write of `n` bytes to the last segment. */
  ghost predicate LastHasSlot(parts: seq<Part>, n: nat)
    requires Tiles(parts)
  {
    LastTakes(parts, n) ==> parts[|parts| - 1].view.w.index < |parts[|parts| - 1].view.index|
  }

  lemma EndedIsMarked(v: View)
    requires WellFormed(v) && v.eos
    ensures v.w.data <= |v.buffer| && MarkedEos(v)
  {
    hide Holds, Indexed, FrameSize;
  }

  /** A segment after an attempt to write to it: a frame more, or ended. */
  ghost function Tried(v: View, p: Payload): View
    requires v.w.data <= |v.buffer| < WORD && (v.w.data + HEADER_SIZE <= |v.buffer| || MarkedEos(v))
    requires !MarkedEos(v) && Fits(v, |p|) ==> v.w.index < |v.index|
  {
    if MarkedEos(v) then v else if Fits(v, |p|) then AfterWrite(v, p) else AfterEos(v)
  }

  lemma CanTry(v: View)
    requires WellFormed(v)
    ensures v.w.data <= |v.buffer| < WORD && (v.w.data + HEADER_SIZE <= |v.buffer| || MarkedEos(v))
  {
    hide Holds, Indexed;
    if !MarkedEos(v) {
      EosKeeps(v);
    }
  }

  /** An attempt leaves what is on disk below the mark as good as it was. */
  lemma TriedKeepsSafe(v: View, p: Payload, m: Mark, d: Image)
    requires WellFormed(v) && SyncedTo(v, m.s, m.synced)
    requires v.w.data <= |v.buffer| < WORD && (v.w.data + HEADER_SIZE <= |v.buffer| || MarkedEos(v))
    requires !MarkedEos(v) && Fits(v, |p|) ==> v.w.index < |v.index|
    ensures DataSafe(Tried(v, p), m, d) <==> DataSafe(v, m, d)
    ensures Sound(v, m, d) ==> Sound(Tried(v, p), m, d)
  {
    hide WellFormed, SyncedTo, Fits, PutFrame, PutEos, Flags, DataSafe, Sound;
    if !MarkedEos(v) {
      EosKeeps(v);
      if Fits(v, |p|) {
        WriteKeepsSafe(v, p, m, d);
      } else {
        EosKeepsSafe(v, m, d);
      }
    }
  }

  lemma TriedAgrees(v: View, p: Payload, m: Mark, d: Image, whole: bool)
    requires WellFormed(v) && SyncedTo(v, m.s, m.synced) && Agrees(v, m, d, whole)
    requires v.w.data <= |v.buffer| < WORD && (v.w.data + HEADER_SIZE <= |v.buffer| || MarkedEos(v))
    requires !MarkedEos(v) && Fits(v, |p|) ==> v.w.index < |v.index|
    ensures Agrees(Tried(v, p), m, d, whole)
  {
    hide WellFormed, SyncedTo, Fits, MarkedEos, Tried, DataSafe, Sound;
    TriedKeepsSafe(v, p, m, d);
  }

  /** What an attempt does to the log. */
  lemma LastTried(parts: seq<Part>, p: Payload)
    requires Tiles(parts) && parts != [] && LastHasSlot(parts, |p|)
    ensures
      var v := parts[|parts| - 1].view;
      && v.w.data <= |v.buffer| < WORD && (v.w.data + HEADER_SIZE <= |v.buffer| || MarkedEos(v))
      && (!MarkedEos(v) && Fits(v, |p|) ==> v.w.index < |v.index|)
      && var after := WithLast(parts, Tried(v, p));
      && Tiles(after) && Extends(parts, after)
      && (LastTakes(parts, |p|) ==> Contents(after) == Contents(parts) + [Record(p)] && !LastEmpty(after))
      && (!LastTakes(parts, |p|) ==>
            && Contents(after) == Contents(parts) && NextBase(after) == NextBase(parts)
            && LastInBounds(after) && MarkedEos(after[|after| - 1].view))
  {
    hide WellFormed, Fits, PutFrame, PutEos, Contents, Entries, Extends, Flags;
    var v := parts[|parts| - 1].view;
    assert TiledAt(parts, |parts| - 1);
    CanTry(v);
    if LastTakes(parts, |p|) {
      WriteExtends(parts, p);
    } else if !MarkedEos(v) {
      EndKeepsContents(parts);
    } else {
      assert WithLast(parts, v) == parts;
      LastExtends(parts, v);
    }
  }

  lemma PartAdded(parts: seq<Part>, p: Part)
    requires Tiles(parts) && !LastEmpty(parts) && WellFormed(p.view) && p.base == NextBase(parts)
    ensures Tiles(parts + [p]) && Contents(parts + [p]) == Contents(parts) + Entries(p.view)
    ensures Bases(parts + [p]) == Bases(parts) + {p.base} && p.base !in Bases(parts)
  {
    hide WellFormed, Entries;
    ContentsSnoc(parts, p);
    forall i | 0 <= i < |parts| + 1 ensures TiledAt(parts + [p], i) {
      assert i < |parts| ==> TiledAt(parts, i);
    }
    NextIsNew(parts);
    BasesSnoc(parts, p);
  }

  lemma BelowNext(parts: seq<Part>)
    requires Tiles(parts) && !LastEmpty(parts)
    ensures forall i | 0 <= i < |parts| :: parts[i].base < NextBase(parts)
  {
    hide WellFormed;
    forall i | 0 <= i < |parts| ensures parts[i].base < NextBase(parts) {
      assert TiledAt(parts, i);
      BasesAscend(parts, i, |parts|);
    }
  }

  lemma NextIsNew(parts: seq<Part>)
    requires Tiles(parts) && !LastEmpty(parts)
    ensures NextBase(parts) !in Bases(parts)
  {
    hide WellFormed;
    BelowNext(parts);
  }

  ghost function Bases(parts: seq<Part>): set<nat> {
    set i | 0 <= i < |parts| :: parts[i].base
  }

  lemma BasesSnoc(parts: seq<Part>, p: Part)
    ensures Bases(parts + [p]) == Bases(parts) + {p.base}
  {
    var after := parts + [p];
    forall b | b in Bases(parts) + {p.base} ensures b in Bases(after) {
      if b == p.base {
        assert after[|parts|].base == b;
      } else {
        var i :| 0 <= i < |parts| && parts[i].base == b;
        assert after[i].base == b;
      }
    }
  }

  lemma BasesKept(parts: seq<Part>, v: View)
    requires parts != []
    ensures Bases(WithLast(parts, v)) == Bases(parts)
  {
    var after := WithLast(parts, v);
    forall b | b in Bases(parts) ensures b in Bases(after) {
      var i :| 0 <= i < |parts| && parts[i].base == b;
      assert after[i].base == b;
    }
    forall b | b in Bases(after) ensures b in Bases(parts) {
      var i :| 0 <= i < |after| && after[i].base == b;
      assert parts[i].base == b;
    }
  }

  // How a log grows, and what of it committed reads may have.

  /** Offset `k` is a frame of `part` beyond the first `mark`, those below the sync mark. */
  predicate UnsyncedIn(part: Part, mark: nat, k: nat) {
    part.base + mark <= k < part.base + |part.view.frames|
  }

  ghost predicate Unsynced(parts: seq<Part>, marks: seq<Mark>, k: nat)
    requires |marks| == |parts|
  {
    exists i :: 0 <= i < |parts| && UnsyncedIn(parts[i], marks[i].synced, k)
  }

  lemma UnsyncedHere(parts: seq<Part>, marks: seq<Mark>, k: nat, g: nat)
    requires Tiles(parts) && |marks| == |parts| && g < |parts|
    requires parts[g].base <= k < parts[g].base + |parts[g].view.frames|
    ensures Unsynced(parts, marks, k) <==> k >= parts[g].base + marks[g].synced
  {
    hide WellFormed, Tiles;
    if k >= parts[g].base + marks[g].synced {
      assert UnsyncedIn(parts[g], marks[g].synced, k);
    }
    forall i | 0 <= i < |parts| && UnsyncedIn(parts[i], marks[i].synced, k) ensures i == g {
      OneSegment(parts, i, g, k);
    }
  }

  /** In a segment of a longer log, an offset of the shorter one is a frame that was there already. */
  lemma OldFrame(before: seq<Part>, after: seq<Part>, i: nat, k: nat)
    requires Tiles(before) && Tiles(after) && Extends(before, after) && i < |after|
    requires after[i].base <= k < after[i].base + |after[i].view.frames| && k < NextBase(before)
    ensures i < |before| && k < before[i].base + |before[i].view.frames|
  {
    hide WellFormed;
    assert TiledAt(after, i);
    if i < |before| {
      assert TiledAt(before, i);
      EndSynced(after[i].view);
      EndSynced(before[i].view);
      StubAlone(after[i].view);
      if i + 1 < |before| {
        assert TiledAt(before, i + 1) && TiledAt(after, i + 1);
      }
    } else {
      LaterBase(before, after, i);
    }
  }

  lemma StubAlone(v: View)
    requires WellFormed(v)
    ensures v.stub ==> v.frames == []
  {
  }

  lemma LaterBase(before: seq<Part>, after: seq<Part>, i: nat)
    requires Tiles(before) && Tiles(after) && Extends(before, after) && |before| <= i < |after|
    ensures after[i].base >= NextBase(before)
  {
    hide WellFormed;
    if before != [] {
      var n := |before| - 1;
      assert TiledAt(before, n) && TiledAt(after, n);
      EndSynced(before[n].view);
      EndSynced(after[n].view);
      BasesAscend(after, n, i);
    }
  }

  /** While a log grows and its marks stay, what is unsynced of what it held stays so, and nothing else gets so. */
  lemma UnsyncedKept(before: seq<Part>, after: seq<Part>, marks: seq<Mark>, marks': seq<Mark>, k: nat)
    requires Tiles(before) && Tiles(after) && Extends(before, after)
    requires |marks| == |before| && |marks'| == |after| && marks <= marks' && k < NextBase(before)
    ensures Unsynced(after, marks', k) <==> Unsynced(before, marks, k)
  {
    hide WellFormed, Tiles;
    if Unsynced(before, marks, k) {
      var i :| 0 <= i < |before| && UnsyncedIn(before[i], marks[i].synced, k);
      assert UnsyncedIn(after[i], marks'[i].synced, k);
    }
    if Unsynced(after, marks', k) {
      var i :| 0 <= i < |after| && UnsyncedIn(after[i], marks'[i].synced, k);
      OldFrame(before, after, i, k);
      assert UnsyncedIn(before[i], marks[i].synced, k);
    }
  }

  /** The entry that a write adds is above the sync mark. */
  lemma NewIsUnsynced(before: seq<Part>, after: seq<Part>, marks: seq<Mark>, marks': seq<Mark>, p: Payload)
    requires Tiles(before) && Tiles(after) && Extends(before, after)
    requires Contents(after) == Contents(before) + [Record(p)] && !LastEmpty(after)
    requires |marks| == |before| && |marks'| == |after| && marks <= marks'
    requires forall i | 0 <= i < |after| ::
               marks'[i].synced <= if i < |before| then |before[i].view.frames| else 0
    ensures Unsynced(after, marks', |Contents(before)|)
  {
    hide WellFormed, Tiles, Contents;
    ContentsLength(before);
    ContentsLength(after);
    var n, k := |after| - 1, NextBase(before);
    LastOffset(after);
    if |before| == |after| {
      OldLast(before, after);
    } else {
      LaterBase(before, after, n);
    }
    assert UnsyncedIn(after[n], marks'[n].synced, k);
  }

  /** The last entry is the last one of the last segment. */
  lemma LastOffset(parts: seq<Part>)
    requires Tiles(parts) && Contents(parts) != [] && Contents(parts)[|Contents(parts)| - 1].Record?
    requires !LastEmpty(parts)
    ensures parts != []
    ensures NextBase(parts) == parts[|parts| - 1].base + |parts[|parts| - 1].view.frames|
    ensures parts[|parts| - 1].view.frames != []
  {
    hide WellFormed;
    var v := parts[|parts| - 1].view;
    assert TiledAt(parts, |parts| - 1);
    EntriesLength(v);
    EndSynced(v);
    StubAlone(v);
  }

  lemma OldLast(before: seq<Part>, after: seq<Part>)
    requires Tiles(before) && Extends(before, after) && |before| == |after| > 0
    ensures before[|before| - 1].base + |before[|before| - 1].view.frames| <= NextBase(before)
    ensures before[|before| - 1].base == after[|after| - 1].base
  {
    hide WellFormed;
    assert TiledAt(before, |before| - 1);
    EndSynced(before[|before| - 1].view);
  }

  /** A sync of the last segment leaves unsynced what was unsynced before it. */
  lemma SyncedLast(parts: seq<Part>, marks: seq<Mark>, marks': seq<Mark>, k: nat)
    requires Tiles(parts) && parts != [] && |marks| == |marks'| == |parts|
    requires marks'[..|parts| - 1] == marks[..|parts| - 1]
    requires marks'[|parts| - 1].synced == |parts[|parts| - 1].view.frames|
    ensures Unsynced(parts, marks', k) <==> Unsynced(parts, marks, k) && k < parts[|parts| - 1].base
  {
    hide WellFormed, Tiles;
    var n := |parts| - 1;
    forall i | 0 <= i < n ensures marks'[i] == marks[i] && parts[i].base + |parts[i].view.frames| <= parts[n].base {
      assert marks'[i] == marks'[..n][i] && marks[i] == marks[..n][i];
      FramesBefore(parts, i, n);
    }
    if Unsynced(parts, marks', k) {
      var i :| 0 <= i < |parts| && UnsyncedIn(parts[i], marks'[i].synced, k);
      assert UnsyncedIn(parts[i], marks[i].synced, k);
    }
    if Unsynced(parts, marks, k) && k < parts[n].base {
      var i :| 0 <= i < |parts| && UnsyncedIn(parts[i], marks[i].synced, k);
      assert UnsyncedIn(parts[i], marks'[i].synced, k);
    }
  }

  lemma FramesBefore(parts: seq<Part>, i: nat, n: nat)
    requires Tiles(parts) && i < n < |parts|
    ensures parts[i].base + |parts[i].view.frames| <= parts[n].base
  {
    hide WellFormed;
    assert TiledAt(parts, i);
    EndSynced(parts[i].view);
    BasesAscend(parts, i, n);
  }

  // Closing and reopening.

  /** The view that recovery gives of the files of `v`: an end marker without frames is found as an entry. */
  function FoundAgain(v: View): View {
    Reopened(v.buffer, v.index, v.frames, v.frames == [] && v.eos)
  }

  function AllFoundAgain(parts: seq<Part>): seq<Part> {
    seq(|parts|, i requires 0 <= i < |parts| => Part(parts[i].base, FoundAgain(parts[i].view)))
  }

  /** A segment that took no payload before its end marker. */
  predicate EndedEmpty(v: View) {
    v.frames == [] && v.eos && !v.stub
  }

  predicate LastEndedEmpty(parts: seq<Part>) {
    parts != [] && EndedEmpty(parts[|parts| - 1].view)
  }

  /** A last segment without entries is full only by an end marker: it is a file that no entry leads to. */
  lemma FullAndEmpty(v: View)
    requires WellFormed(v) && v.w.index == 0 && v.w.data <= |v.buffer| && MarkedEos(v)
    ensures EndedEmpty(v) && OnFile(v.buffer, v.index, [], true)
  {
    hide Holds, Indexed, Flags, FrameSize;
    CloseLeaves(v);
  }

  lemma StubUnindexed(buffer: seq<byte>, index: seq<nat>)
    requires OnFile(buffer, index, [], true) && |buffer| >= 4096
    ensures |index| > 0 && forall i | 0 <= i < |index| :: index[i] == 0
  {
    hide Holds, Flags, FrameSize;
  }

  /** What is on disk of a last segment with nothing but an end marker stays, when its files are closed twice. */
  lemma ReopenedSyncAgrees(v: View, m: Mark, page: nat, dataOk: bool, indexOk: bool, d: Image, whole: bool)
    requires WellFormed(v) && SyncedTo(v, m.s, m.synced) && EndedEmpty(v) && page >= 4096 && Agrees(v, m, d, whole)
    ensures
      var u := Reopened(v.buffer, v.index, [], true);
      Agrees(v, m, AfterSync(u, Mark(u.w, 0), page, dataOk, indexOk, d), whole)
  {
    hide WellFormed, SyncedTo, Reopened, AfterSync, Sound, DataSafe;
    ReopenedSyncKeeps(v, m, page, dataOk, indexOk, d);
  }

  lemma FoundOnFile(v: View)
    requires WellFormed(v)
    ensures OnFile(v.buffer, v.index, v.frames, v.frames == [] && v.eos) && WellFormed(FoundAgain(v))
    ensures FoundAgain(v).w.index == v.w.index + if EndedEmpty(v) then 1 else 0
    ensures Entries(FoundAgain(v)) == Entries(v) + if EndedEmpty(v) then [Hole] else []
    ensures v.w.index > 0 ==> !EndedEmpty(v)
  {
    hide Holds, Indexed, Flags, FrameSize;
    CloseLeaves(v);
  }

  /**
    Recovery gives back the same tiling, with the same entries; an end marker in a last segment without
    entries is one more.
  */
  lemma {:induction false} FoundTiles(parts: seq<Part>)
    requires Tiles(parts)
    ensures Tiles(AllFoundAgain(parts)) && Bases(AllFoundAgain(parts)) == Bases(parts)
    ensures !LastEmpty(parts) ==>
              && NextBase(AllFoundAgain(parts)) == NextBase(parts) && !LastEmpty(AllFoundAgain(parts))
              && !LastEndedEmpty(parts)
    ensures Contents(AllFoundAgain(parts)) == Contents(parts) + if LastEndedEmpty(parts) then [Hole] else []
  {
    hide WellFormed, FoundAgain, Entries, EndedEmpty;
    var found := AllFoundAgain(parts);
    forall i | 0 <= i < |parts| ensures TiledAt(found, i) && TiledAt(parts, i) {
      assert TiledAt(parts, i);
      FoundOnFile(parts[i].view);
      if i > 0 {
        assert TiledAt(parts, i - 1);
        FoundOnFile(parts[i - 1].view);
      }
    }
    SameBases(parts, found);
    if parts != [] {
      var n := |parts| - 1;
      assert TiledAt(parts, n);
      FoundOnFile(parts[n].view);
      TilesPrefix(parts, n);
      FoundTiles(parts[..n]);
      if n > 0 {
        assert TiledAt(parts, n - 1);
        FoundOnFile(parts[n - 1].view);
      }
      assert found[..n] == AllFoundAgain(parts[..n]);
    }
  }

  lemma SameBases(parts: seq<Part>, found: seq<Part>)
    requires |parts| == |found| && forall i | 0 <= i < |parts| :: parts[i].base == found[i].base
    ensures Bases(found) == Bases(parts)
  {
    forall b | b in Bases(parts) ensures b in Bases(found) {
      var i :| 0 <= i < |parts| && parts[i].base == b;
      assert found[i].base == b;
    }
    forall b | b in Bases(found) ensures b in Bases(parts) {
      var i :| 0 <= i < |found| && found[i].base == b;
      assert parts[i].base == b;
    }
  }

  ghost predicate Ascends(listing: seq<Shape.Key>) {
    forall i, j | 0 <= i < j < |listing| :: listing[i] < listing[j]
  }

  /** There is one ascending listing of the bases, the order of the segments. */
  lemma {:induction false} ListingIsOrder(listing: seq<Shape.Key>, parts: seq<Part>)
    requires Ascends(listing) && Tiles(parts)
    requires forall b: Shape.Key :: b in listing <==> b in Bases(parts)
    ensures |listing| == |parts| && forall i | 0 <= i < |parts| :: listing[i] == parts[i].base
  {
    hide WellFormed, Tiles;
    if parts == [] {
      if listing != [] {
        HasFirst(listing);
        assert false;
      }
    } else {
      var n := |parts| - 1;
      LastIsGreatest(parts);
      assert parts[n].base in Bases(parts);
      var m := |listing| - 1;
      assert listing[m] in listing;
      TilesPrefix(parts, n);
      forall b: Shape.Key ensures b in listing[..m] <==> b in Bases(parts[..n]) {
        WithoutLast(listing, parts, b);
      }
      ListingIsOrder(listing[..m], parts[..n]);
    }
  }

  lemma InPrefixOrLast(listing: seq<Shape.Key>, b: Shape.Key)
    requires listing != []
    ensures b in listing <==> b in listing[..|listing| - 1] || b == listing[|listing| - 1]
  {
    var m := |listing| - 1;
    if b in listing {
      var j :| 0 <= j < |listing| && listing[j] == b;
      assert j == m || listing[..m][j] == b;
    }
  }

  lemma HasFirst(listing: seq<Shape.Key>)
    requires listing != []
    ensures listing[0] in listing
  {
  }

  lemma LastIsGreatest(parts: seq<Part>)
    requires Tiles(parts) && parts != []
    ensures forall b | b in Bases(parts) :: b <= parts[|parts| - 1].base
    ensures forall b :: b in Bases(parts[..|parts| - 1]) <==> b in Bases(parts) && b < parts[|parts| - 1].base
  {
    hide WellFormed, Tiles;
    var n := |parts| - 1;
    TilesPrefix(parts, n);
    BelowNext(parts[..n]);
    assert parts[..n] + [parts[n]] == parts;
    BasesSnoc(parts[..n], parts[n]);
  }

  lemma WithoutLast(listing: seq<Shape.Key>, parts: seq<Part>, b: Shape.Key)
    requires Ascends(listing) && listing != [] && Tiles(parts) && parts != []
    requires listing[|listing| - 1] in Bases(parts) && parts[|parts| - 1].base in listing
    requires forall b: Shape.Key :: b in listing <==> b in Bases(parts)
    ensures listing[|listing| - 1] == parts[|parts| - 1].base
    ensures b in listing[..|listing| - 1] <==> b in Bases(parts[..|parts| - 1])
  {
    hide Tiles;
    LastIsGreatest(parts);
    var m := |listing| - 1;
    if b in listing[..m] {
      var j :| 0 <= j < m && listing[j] == b;
      assert b in listing && listing[j] < listing[m];
    }
    InPrefixOrLast(listing, b);
  }

  lemma SomeEntry(v: View)
    requires WellFormed(v) && v.w.index > 0
    ensures v.stub || v.frames != []
    ensures v.stub ==> v.frames == [] && Entries(v) == [Hole]
  {
  }

  lemma OnFileSound(buffer: seq<byte>, index: seq<nat>, frames: seq<Payload>, stub: bool)
    requires OnFile(buffer, index, frames, stub)
    ensures WellFormed(Reopened(buffer, index, frames, stub))
    ensures Reopened(buffer, index, frames, stub).w.index == |frames| + if stub then 1 else 0
  {
    hide Holds, Indexed, Flags, FrameSize;
  }

  // Room in the index.

  /** Every segment has an index slot left, as recovery needs. */
  ghost predicate SlotsLeft(parts: seq<Part>) {
    forall i | 0 <= i < |parts| :: parts[i].view.w.index < |parts[i].view.index|
  }

  /** Every file is a whole number of pages. */
  ghost predicate InPages(parts: seq<Part>, page: nat)
    requires page > 0
  {
    forall i | 0 <= i < |parts| :: |parts[i].view.buffer| % page == 0
  }

  /** Every payload has at least `n` bytes. */
  ghost predicate AtLeast(entries: seq<Entry>, n: nat) {
    forall k | 0 <= k < |entries| :: entries[k].Record? ==> |entries[k].payload| >= n
  }

  lemma FramesAtLeast(parts: seq<Part>, i: nat, n: nat)
    requires Tiles(parts) && AtLeast(Contents(parts), n) && i < |parts|
    ensures Room.AtLeast(parts[i].view.frames, n)
  {
    hide WellFormed, Contents, Entries;
    var v := parts[i].view;
    assert TiledAt(parts, i);
    EndSynced(v);
    forall j | 0 <= j < |v.frames| ensures |v.frames[j]| >= n {
      ContentsAt(parts, i, j);
      EntryIsFrame(v, j);
      assert Contents(parts)[parts[i].base + j].Record?;
    }
  }

  lemma EntryIsFrame(v: View, j: nat)
    requires WellFormed(v) && j < |v.frames|
    ensures |Entries(v)| == |v.frames| && Entries(v)[j] == Record(v.frames[j])
  {
  }

  /** With payloads of at least 84 bytes the last segment has an index slot for whatever it has room for. */
  lemma LargeHasSlot(parts: seq<Part>, p: Payload)
    requires Tiles(parts) && AtLeast(Contents(parts), 84) && |p| >= 84
    ensures LastHasSlot(parts, |p|)
  {
    hide WellFormed, Contents, Entries, Fits, MarkedEos, Room.AtLeast;
    if LastTakes(parts, |p|) {
      var n := |parts| - 1;
      assert TiledAt(parts, n);
      FramesAtLeast(parts, n, 84);
      Room.EightyFour(|parts[n].view.buffer|);
      Room.WriteHasSlot(parts[n].view, |parts[n].view.buffer|, 84, |p|);
    }
  }

  /** With payloads of at least 86 bytes every segment of a page or more has a slot left. */
  lemma LargerLeaveSlots(parts: seq<Part>)
    requires Tiles(parts) && AtLeast(Contents(parts), 86)
    requires forall i | 0 <= i < |parts| :: |parts[i].view.buffer| >= 4096
    ensures SlotsLeft(parts)
  {
    hide WellFormed, Contents, Room.AtLeast, Room.CoversRecovery;
    forall i | 0 <= i < |parts| ensures parts[i].view.w.index < |parts[i].view.index| {
      var v := parts[i].view;
      assert TiledAt(parts, i);
      FramesAtLeast(parts, i, 86);
      Room.EightySix(|v.buffer|);
      if v.stub {
        StubHasSlot(v);
      } else {
        Room.SlotStaysFree(v, 86);
      }
    }
  }

  lemma StubHasSlot(v: View)
    requires WellFormed(v) && v.stub && |v.buffer| >= 4096
    ensures v.w.index == 1 < |v.index|
  {
    hide Holds, Flags, FrameSize;
  }

  /** A log that a machine with pages of 4096 bytes opens, and one with larger pages refuses. */
  lemma LargerPageRefuses() returns (parts: seq<Part>)
    ensures Tiles(parts) && SlotsLeft(parts) && InPages(parts, 4096) && !InPages(parts, 65536)
    ensures Contents(parts) == [Record(Room.Zeros(84))]
  {
    hide WellFormed, MarkedEos;
    var v := Room.Fill(4096, 84, 1);
    Room.FilledAtLeast(v, 4096, 84, 1, 84);
    parts := [Part(0, v)];
    assert TiledAt(parts, 0);
    assert |parts[0].view.buffer| == 4096;
    assert parts[..0] == [] && Contents([]) == [];
  }
}
