/**
  The shape of the monotonic B+tree of src/mbptree.c, as values.

  `levels[0]` lists the leaves from left to right; each level above lists the internal nodes over
  the level below, up to the root alone on top. Because keys only grow, an append changes nothing
  but the last node of a level: every other internal node is the left half of an earlier split.
*/
module MbpTreeShape {
  type Key = k: int | 0 <= k < 0x1_0000_0000_0000_0000

  /** The union stored beside a key; an all-zero word is the null pointer. */
  datatype Word<V> = User(value: V) | Addr(node: Node?<V>)

  datatype Data<V> = Data(key: Key, value: Word<V>)

  datatype Pair<V> = Pair(key: Key, value: V)

  function Blank<V>(branchFactor: nat): seq<Data<V>> {
    seq(branchFactor, _ => Data(0, Addr(null)))
  }

  /** A node of the tree; `level` and `pos` say where it sits and never change. */
  class Node<V> {
    const leaf: bool
    var size: nat
    var parent: Node?<V>
    const data: array<Data<V>>
    ghost const level: nat
    ghost const pos: nat

    constructor (branchFactor: nat, leaf: bool, parent: Node?<V>, ghost level: nat, ghost pos: nat)
      ensures this.leaf == leaf && this.parent == parent && size == 0
      ensures this.level == level && this.pos == pos
      ensures fresh(data) && data.Length == branchFactor && data[..] == Blank(branchFactor)
    {
      this.leaf, this.parent, size := leaf, parent, 0;
      this.level, this.pos := level, pos;
      data := new Data<V>[branchFactor](_ => Data(0, Addr(null)));
    }
  }

  /**
    What stays fixed of a node: `first` is the position, in the level below, of its leftmost child
    (for a leaf: the position of its first pair in the contents); `minKey` is the least key under
    it, meaningful only for a node with a left neighbour.
  */
  datatype Head<V> = Head(ref: Node<V>, first: nat, minKey: Key)

  /** What changes of a node, but for its parent pointer. */
  datatype Cell<V> = Cell(size: nat, data: seq<Data<V>>)

  datatype Level<V> = Level(heads: seq<Head<V>>, cells: seq<Cell<V>>, parents: seq<Node?<V>>) {
    ghost predicate Sized() {
      |heads| == |cells| == |parents| > 0
    }
  }

  /** mbptree_midpoint: the slot in the middle, the one on the right of two. */
  function Midpoint(branchFactor: nat): (mid: nat)
    ensures 2 * mid <= branchFactor <= 2 * mid + 1
  {
    branchFactor / 2
  }

  /** A node holds the children `down[h.first..h.first + c.size]` and the keys between them. */
  ghost predicate Fanout<V>(bf: nat, i: nat, h: Head<V>, c: Cell<V>, down: seq<Head<V>>, parents: seq<Node?<V>>) {
    && c.size < bf == |c.data|
    && h.first + c.size < |down| == |parents|
    && (i > 0 ==> h.minKey == down[h.first].minKey)
    && (forall j | 0 <= j <= c.size :: c.data[j].value == Addr(down[h.first + j].ref))
    && (forall j | 0 <= j < c.size :: c.data[j].key == down[h.first + j + 1].minKey)
    && (forall q | h.first <= q <= h.first + c.size :: parents[q] == h.ref)
  }

  /**
    One level links the whole level below, but for its last node when `missing`; and it has its
    shape: all nodes but the last have half the branch factor of keys, and the last has no fewer than a
    split leaves on the right.
  */
  ghost predicate Linked<V>(bf: nat, top: bool, heads: seq<Head<V>>, cells: seq<Cell<V>>,
                            down: seq<Head<V>>, parents: seq<Node?<V>>, missing: bool) {
    && |heads| == |cells| > 0
    && heads[0].first == 0
    && (forall i | 0 <= i < |heads| :: Fanout(bf, i, heads[i], cells[i], down, parents))
    && (forall i | 0 <= i < |heads| - 1 ::
          cells[i].size == bf / 2 && heads[i + 1].first == heads[i].first + cells[i].size + 1)
    && var last := |heads| - 1;
    && heads[last].first + cells[last].size + 1 == |down| - (if missing then 1 else 0)
    && cells[last].size >= (if top then 1 else bf - 1 - bf / 2)
  }

  ghost predicate LeafHolds<V>(bf: nat, i: nat, h: Head<V>, c: Cell<V>, contents: seq<Pair<V>>) {
    && c.size < bf == |c.data|
    && h.first + c.size <= |contents|
    && (forall j | 0 <= j < c.size ::
          c.data[j] == Data(contents[h.first + j].key, User(contents[h.first + j].value)))
    && (i > 0 ==> c.size > 0 && h.minKey == c.data[0].key)
  }

  /** The leaf chain: all leaves but the last are full, and together they hold the contents. */
  ghost predicate Leaves<V>(bf: nat, heads: seq<Head<V>>, cells: seq<Cell<V>>, contents: seq<Pair<V>>) {
    && |heads| == |cells| > 0
    && heads[0].first == 0
    && (forall i | 0 <= i < |heads| :: LeafHolds(bf, i, heads[i], cells[i], contents))
    && (forall i | 0 <= i < |heads| - 1 ::
          && cells[i].size == bf - 1
          && heads[i + 1].first == heads[i].first + cells[i].size
          && cells[i].data[bf - 1].value == Addr(heads[i + 1].ref))
    && var last := |heads| - 1;
    && heads[last].first + cells[last].size == |contents|
    && (forall j | cells[last].size <= j < bf :: cells[last].data[j].value == Addr(null))
  }

  ghost predicate Sorted<V>(contents: seq<Pair<V>>) {
    forall i, j | 0 <= i < j < |contents| :: contents[i].key < contents[j].key
  }

  ghost predicate Placed<V>(l: nat, level: Level<V>) {
    && level.Sized()
    && forall i | 0 <= i < |level.heads| ::
         var x := level.heads[i].ref;
         x.level == l && x.pos == i && x.leaf == (l == 0)
  }

  ghost predicate LinkedAt<V>(bf: nat, levels: seq<Level<V>>, l: nat, k: nat)
    requires 1 <= l < |levels|
  {
    Linked(bf, l == |levels| - 1, levels[l].heads, levels[l].cells, levels[l - 1].heads, levels[l - 1].parents, l == k)
  }

  /**
    The invariant while a split climbs: the node that ends level `k - 1` is not yet a child of the
    last node of level `k`, though it already points to it. `k == 0` when nothing is pending.
  */
  ghost predicate Pending<V>(bf: nat, levels: seq<Level<V>>, contents: seq<Pair<V>>, k: nat) {
    && bf >= 3
    && k < |levels|
    && (forall l | 0 <= l < |levels| :: Placed(l, levels[l]))
    && (forall l | 1 <= l < |levels| :: LinkedAt(bf, levels, l, k))
    && Leaves(bf, levels[0].heads, levels[0].cells, contents)
    && Sorted(contents)
    && var top := levels[|levels| - 1];
    && |top.heads| == 1 && top.parents[0] == null
    && (k > 0 ==>
          levels[k - 1].parents[|levels[k - 1].parents| - 1] == levels[k].heads[|levels[k].heads| - 1].ref)
  }

  // The effect of each step of an append on one node.

  function WithChild<V>(c: Cell<V>, key: Key, child: Node<V>): (after: Cell<V>)
    requires c.size + 1 < |c.data|
    ensures after.size == c.size + 1
  {
    var keyed := c.data[c.size := c.data[c.size].(key := key)];
    Cell(c.size + 1, keyed[c.size + 1 := keyed[c.size + 1].(value := Addr(child))])
  }

  /** The left half keeps the middle key in its slot, beyond its new size. */
  function LeftHalf<V>(c: Cell<V>, mid: nat): (left: Cell<V>)
    ensures left.size == mid && |left.data| == |c.data|
  {
    Cell(mid, seq(|c.data|, j requires 0 <= j < |c.data| =>
      Data(if mid < j < c.size then 0 else c.data[j].key, if mid < j <= c.size then Addr(null) else c.data[j].value)))
  }

  function RightHalf<V>(c: Cell<V>, mid: nat): (right: Cell<V>)
    requires mid < c.size < |c.data|
    ensures right.size == c.size - mid - 1 && |right.data| == |c.data|
  {
    Cell(c.size - mid - 1, seq(|c.data|, j requires 0 <= j < |c.data| =>
      Data(if mid + 1 + j < c.size then c.data[mid + 1 + j].key else 0,
           if mid + 1 + j <= c.size then c.data[mid + 1 + j].value else Addr(null))))
  }

  function Adopted<V>(parents: seq<Node?<V>>, from: nat, x: Node<V>): (after: seq<Node?<V>>)
    ensures |after| == |parents| && (from < |parents| ==> after[|parents| - 1] == x)
  {
    seq(|parents|, q requires 0 <= q < |parents| => if q < from then parents[q] else x)
  }

  lemma FanoutChild<V>(bf: nat, i: nat, h: Head<V>, c: Cell<V>, down: seq<Head<V>>, parents: seq<Node?<V>>)
    requires Fanout(bf, i, h, c, down, parents) && c.size + 1 < bf
    requires h.first + c.size + 2 == |down| && parents[|parents| - 1] == h.ref
    ensures
      var child := down[|down| - 1];
      Fanout(bf, i, h, WithChild(c, child.minKey, child.ref), down, parents)
  {
  }

  lemma LinkChild<V>(bf: nat, top: bool, heads: seq<Head<V>>, cells: seq<Cell<V>>,
                     down: seq<Head<V>>, parents: seq<Node?<V>>)
    requires Linked(bf, top, heads, cells, down, parents, true)
    requires cells[|cells| - 1].size + 1 < bf
    requires parents[|parents| - 1] == heads[|heads| - 1].ref
    ensures
      var child := down[|down| - 1];
      Linked(bf, top, heads, cells[|cells| - 1 := WithChild(cells[|cells| - 1], child.minKey, child.ref)],
             down, parents, false)
  {
    var last := |heads| - 1;
    FanoutChild(bf, last, heads[last], cells[last], down, parents);
    hide Fanout;
  }

  lemma FanoutLeft<V>(bf: nat, i: nat, h: Head<V>, c: Cell<V>, down: seq<Head<V>>, parents: seq<Node?<V>>,
                      right: Node<V>)
    requires bf >= 3 && Fanout(bf, i, h, c, down, parents) && c.size == bf - 1
    ensures Fanout(bf, i, h, LeftHalf(c, bf / 2), down, Adopted(parents, h.first + bf / 2 + 1, right))
  {
  }

  lemma FanoutRight<V>(bf: nat, i: nat, h: Head<V>, c: Cell<V>, down: seq<Head<V>>, parents: seq<Node?<V>>,
                       right: Node<V>)
    requires bf >= 3 && Fanout(bf, i, h, c, down, parents) && c.size == bf - 1
    ensures
      var mid := bf / 2;
      Fanout(bf, i + 1, Head(right, h.first + mid + 1, c.data[mid].key), RightHalf(c, mid), down,
             Adopted(parents, h.first + mid + 1, right))
  {
    var mid := bf / 2;
    var half := RightHalf(c, mid);
    var first := h.first + mid + 1;
    forall j | 0 <= j <= half.size ensures half.data[j].value == Addr(down[first + j].ref) {
      assert c.data[mid + 1 + j].value == Addr(down[h.first + (mid + 1 + j)].ref);
    }
    forall j | 0 <= j < half.size ensures half.data[j].key == down[first + j + 1].minKey {
      assert c.data[mid + 1 + j].key == down[h.first + (mid + 1 + j) + 1].minKey;
    }
  }

  lemma FanoutBefore<V>(bf: nat, i: nat, h: Head<V>, c: Cell<V>, down: seq<Head<V>>, parents: seq<Node?<V>>,
                        from: nat, right: Node<V>)
    requires Fanout(bf, i, h, c, down, parents) && h.first + c.size < from
    ensures Fanout(bf, i, h, c, down, Adopted(parents, from, right))
  {
  }

  /** Among the nodes of a level but its last, each ends before the last begins. */
  lemma {:induction false} FirstsAscend<V>(heads: seq<Head<V>>, cells: seq<Cell<V>>, i: nat, last: nat)
    requires last < |heads| == |cells| && i < last
    requires forall i | 0 <= i < |heads| - 1 :: heads[i + 1].first == heads[i].first + cells[i].size + 1
    ensures heads[i].first + cells[i].size < heads[last].first
    decreases last - i
  {
    if i + 1 < last {
      FirstsAscend(heads, cells, i + 1, last);
    }
  }

  /** A level whose last node becomes `left` and which gains the node `h` holding `right`. */
  lemma LinkSnoc<V>(bf: nat, heads: seq<Head<V>>, cells: seq<Cell<V>>, left: Cell<V>, h: Head<V>, right: Cell<V>,
                    down: seq<Head<V>>, parents: seq<Node?<V>>)
    requires |heads| == |cells| > 0 && heads[0].first == 0
    requires forall i | 0 <= i < |heads| - 1 :: Fanout(bf, i, heads[i], cells[i], down, parents)
    requires forall i | 0 <= i < |heads| - 1 ::
               cells[i].size == bf / 2 && heads[i + 1].first == heads[i].first + cells[i].size + 1
    requires Fanout(bf, |heads| - 1, heads[|heads| - 1], left, down, parents)
    requires Fanout(bf, |heads|, h, right, down, parents)
    requires left.size == bf / 2 && h.first == heads[|heads| - 1].first + left.size + 1
    requires h.first + right.size + 1 == |down| && right.size >= bf - 1 - bf / 2
    ensures Linked(bf, false, heads + [h], cells[|heads| - 1 := left] + [right], down, parents, false)
  {
    hide Fanout;
  }

  lemma LinkedLast<V>(bf: nat, top: bool, heads: seq<Head<V>>, cells: seq<Cell<V>>,
                      down: seq<Head<V>>, parents: seq<Node?<V>>, missing: bool)
    requires Linked(bf, top, heads, cells, down, parents, missing)
    ensures |Last(cells).data| == bf && |down| == |parents|
  {
    assert Fanout(bf, |heads| - 1, Last(heads), Last(cells), down, parents);
  }

  /** Splitting the last node of a level leaves its other nodes linked as they were. */
  lemma OthersStay<V>(bf: nat, top: bool, heads: seq<Head<V>>, cells: seq<Cell<V>>,
                      down: seq<Head<V>>, parents: seq<Node?<V>>, right: Node<V>)
    requires Linked(bf, top, heads, cells, down, parents, true)
    requires cells[|cells| - 1].size == bf - 1
    ensures
      var last := |heads| - 1;
      var from := heads[last].first + bf / 2 + 1;
      && |heads| == |cells| && heads[0].first == 0
      && heads[last].first + cells[last].size + 2 == |down| == |parents|
      && |cells[last].data| == bf
      && Fanout(bf, last, heads[last], cells[last], down, parents)
      && (forall i | 0 <= i < last :: Fanout(bf, i, heads[i], cells[i], down, Adopted(parents, from, right)))
      && (forall i | 0 <= i < last ::
            cells[i].size == bf / 2 && heads[i + 1].first == heads[i].first + cells[i].size + 1)
  {
    hide Fanout;
    LinkedLast(bf, top, heads, cells, down, parents, true);
    var last := |heads| - 1;
    var from := heads[last].first + bf / 2 + 1;
    forall i | 0 <= i < last
      ensures Fanout(bf, i, heads[i], cells[i], down, Adopted(parents, from, right))
    {
      FirstsAscend(heads, cells, i, last);
      FanoutBefore(bf, i, heads[i], cells[i], down, parents, from, right);
    }
  }

  lemma LinkSplit<V>(bf: nat, top: bool, heads: seq<Head<V>>, cells: seq<Cell<V>>,
                     down: seq<Head<V>>, parents: seq<Node?<V>>, right: Node<V>)
    requires bf >= 3
    requires Linked(bf, top, heads, cells, down, parents, true)
    requires cells[|cells| - 1].size == bf - 1
    ensures |cells[|cells| - 1].data| == bf
    ensures
      var last := |heads| - 1;
      var child := down[|down| - 1];
      var mid := bf / 2;
      var first := heads[last].first + mid + 1;
      Linked(bf, false, heads + [Head(right, first, cells[last].data[mid].key)],
             cells[last := LeftHalf(cells[last], mid)] +
             [WithChild(RightHalf(cells[last], mid), child.minKey, child.ref)],
             down, Adopted(parents, first, right), false)
  {
    hide Linked, Fanout, Adopted, LeftHalf, RightHalf, WithChild;
    OthersStay(bf, top, heads, cells, down, parents, right);
    var last, mid := |heads| - 1, bf / 2;
    var cell, child := cells[last], down[|down| - 1];
    var head := Head(right, heads[last].first + mid + 1, cell.data[mid].key);
    var adopted := Adopted(parents, head.first, right);
    FanoutLeft(bf, last, heads[last], cell, down, parents, right);
    FanoutRight(bf, last, heads[last], cell, down, parents, right);
    FanoutChild(bf, last + 1, head, RightHalf(cell, mid), down, adopted);
    LinkSnoc(bf, heads, cells, LeftHalf(cell, mid), head, WithChild(RightHalf(cell, mid), child.minKey, child.ref),
             down, adopted);
  }

  lemma LinkGrows<V>(bf: nat, top: bool, heads: seq<Head<V>>, cells: seq<Cell<V>>,
                     down: seq<Head<V>>, parents: seq<Node?<V>>, h: Head<V>, p: Node?<V>)
    requires Linked(bf, top, heads, cells, down, parents, false)
    ensures Linked(bf, top, heads, cells, down + [h], parents + [p], true)
  {
  }

  // The steps of an append on the whole tree.

  function Last<T>(s: seq<T>): T
    requires |s| > 0
  {
    s[|s| - 1]
  }

  /** The last node of level `k` takes the pending node as its new last child. */
  function LinkLast<V>(levels: seq<Level<V>>, k: nat): (after: seq<Level<V>>)
    requires 1 <= k < |levels| && levels[k].Sized() && levels[k - 1].Sized()
    requires Last(levels[k].cells).size + 1 < |Last(levels[k].cells).data|
  {
    var up, child := levels[k], Last(levels[k - 1].heads);
    levels[k := up.(cells := up.cells[|up.cells| - 1 := WithChild(Last(up.cells), child.minKey, child.ref)])]
  }

  ghost predicate Splittable<V>(bf: nat, levels: seq<Level<V>>, k: nat) {
    && 1 <= k < |levels| && levels[k].Sized() && levels[k - 1].Sized()
    && bf >= 3 && Last(levels[k].cells).size == bf - 1 == |Last(levels[k].cells).data| - 1
  }

  ghost function RightHead<V>(bf: nat, levels: seq<Level<V>>, k: nat, right: Node<V>): Head<V>
    requires Splittable(bf, levels, k)
  {
    var up := levels[k];
    Head(right, Last(up.heads).first + bf / 2 + 1, Last(up.cells).data[bf / 2].key)
  }

  /** The last node of level `k` splits; `right` takes its right half and the pending node. */
  ghost function SplitLast<V>(bf: nat, levels: seq<Level<V>>, k: nat, right: Node<V>, parents: seq<Node?<V>>)
    : (after: seq<Level<V>>)
    requires Splittable(bf, levels, k)
    ensures |after| == |levels| && after[k].heads == levels[k].heads + [RightHead(bf, levels, k, right)]
    ensures after[0].heads == levels[0].heads && after[0].cells == levels[0].cells
    ensures k < |levels| - 1 ==> Last(after) == Last(levels)
  {
    var up, down, mid := levels[k], levels[k - 1], bf / 2;
    var child, cell := Last(down.heads), Last(up.cells);
    var head := RightHead(bf, levels, k, right);
    levels[k - 1 := down.(parents := Adopted(down.parents, head.first, right))]
          [k := Level(up.heads + [head],
                      up.cells[|up.cells| - 1 := LeftHalf(cell, mid)]
                      + [WithChild(RightHalf(cell, mid), child.minKey, child.ref)],
                      parents)]
  }

  /** What a pending append knows about the last node of the level it has reached. */
  lemma LastFanout<V>(bf: nat, levels: seq<Level<V>>, k: nat)
    requires 1 <= k < |levels| && LinkedAt(bf, levels, k, k) && levels[k].Sized() && levels[k - 1].Sized()
    ensures
      var up, down := levels[k], levels[k - 1];
      && Fanout(bf, |up.heads| - 1, Last(up.heads), Last(up.cells), down.heads, down.parents)
      && Last(up.cells).size < bf == |Last(up.cells).data|
      && Last(up.heads).first + Last(up.cells).size + 2 == |down.heads|
  {
    var up, down := levels[k], levels[k - 1];
    assert Fanout(bf, |up.heads| - 1, Last(up.heads), Last(up.cells), down.heads, down.parents);
  }

  /** The node that splits holds all but the last node of the end of the level below. */
  ghost predicate SplitMoves<V>(bf: nat, levels: seq<Level<V>>, k: nat)
    requires Splittable(bf, levels, k)
  {
    var up, down := levels[k], levels[k - 1];
    var base := Last(up.heads).first;
    && base + bf + 1 == |down.heads|
    && forall q | 0 <= q < bf :: Last(up.cells).data[q].value == Addr(down.heads[base + q].ref)
  }

  lemma PendingMoves<V>(bf: nat, levels: seq<Level<V>>, contents: seq<Pair<V>>, k: nat)
    requires 1 <= k < |levels| && Pending(bf, levels, contents, k)
    requires levels[k].Sized() && levels[k - 1].Sized() && Last(levels[k].cells).size == bf - 1
    ensures Splittable(bf, levels, k) && SplitMoves(bf, levels, k)
  {
    assert LinkedAt(bf, levels, k, k);
    LastFanout(bf, levels, k);
  }

  lemma LinkLastKeepsTree<V>(bf: nat, levels: seq<Level<V>>, contents: seq<Pair<V>>, k: nat)
    requires Pending(bf, levels, contents, k) && k >= 1 && Last(levels[k].cells).size < bf - 1
    ensures |Last(levels[k].cells).data| == bf
    ensures Pending(bf, LinkLast(levels, k), contents, 0)
  {
    hide Linked, Leaves, Sorted, Fanout, WithChild;
    var up, down := levels[k], levels[k - 1];
    assert Placed(k, up) && Placed(k - 1, down) && LinkedAt(bf, levels, k, k);
    LastFanout(bf, levels, k);
    LinkChild(bf, k == |levels| - 1, up.heads, up.cells, down.heads, down.parents);
    var after := LinkLast(levels, k);
    forall l | 1 <= l < |after| ensures LinkedAt(bf, after, l, 0) {
      assert LinkedAt(bf, levels, l, k);
    }
    forall l | 0 <= l < |after| ensures Placed(l, after[l]) {
      assert Placed(l, levels[l]);
    }
  }

  /** The parent pointer of the last node of a level below the top is exact. */
  lemma LastParent<V>(bf: nat, levels: seq<Level<V>>, contents: seq<Pair<V>>, k: nat)
    requires Pending(bf, levels, contents, k) && 1 <= k < |levels| - 1
    ensures |levels[k].parents| > 0 && |levels[k + 1].heads| > 0
    ensures Last(levels[k].parents) == Last(levels[k + 1].heads).ref
  {
    var up := levels[k + 1];
    assert Placed(k, levels[k]) && Placed(k + 1, up) && LinkedAt(bf, levels, k + 1, k);
    assert Fanout(bf, |up.heads| - 1, Last(up.heads), Last(up.cells), levels[k].heads, levels[k].parents);
  }

  lemma SplitKeepsTree<V>(bf: nat, levels: seq<Level<V>>, contents: seq<Pair<V>>, k: nat, right: Node<V>)
    requires Pending(bf, levels, contents, k) && 1 <= k < |levels| - 1 && Last(levels[k].cells).size == bf - 1
    requires right.level == k && right.pos == |levels[k].heads| && !right.leaf
    ensures Splittable(bf, levels, k) && |levels[k].parents| > 0
    ensures Pending(bf, SplitLast(bf, levels, k, right, levels[k].parents + [Last(levels[k].parents)]), contents, k + 1)
  {
    hide Linked, Leaves, Sorted, Fanout, WithChild, LeftHalf, RightHalf;
    var up, down, next := levels[k], levels[k - 1], k + 1;
    assert Placed(k, up) && Placed(k - 1, down) && LinkedAt(bf, levels, k, k) && LinkedAt(bf, levels, next, k);
    LastFanout(bf, levels, k);
    LastParent(bf, levels, contents, k);
    LinkSplit(bf, false, up.heads, up.cells, down.heads, down.parents, right);
    var after := SplitLast(bf, levels, k, right, up.parents + [Last(up.parents)]);
    LinkGrows(bf, next == |levels| - 1, levels[next].heads, levels[next].cells, up.heads, up.parents,
              Last(after[k].heads), Last(up.parents));
    forall l | 1 <= l < |after| ensures LinkedAt(bf, after, l, next) {
      assert LinkedAt(bf, levels, l, k);
    }
    forall l | 0 <= l < |after| ensures Placed(l, after[l]) {
      assert Placed(l, levels[l]);
    }
  }

  /** A new root over the two nodes of the level that was the top. */
  function RootLevel<V>(bf: nat, root: Node<V>, left: Node<V>, key: Key, right: Node<V>): Level<V>
    requires bf >= 3
  {
    Level([Head(root, 0, 0)],
          [Cell(1, Blank<V>(bf)[0 := Data(key, Addr(left))][1 := Data(0, Addr(right))])],
          [null])
  }

  lemma LinkRoot<V>(bf: nat, root: Node<V>, key: Key, down: seq<Head<V>>, parents: seq<Node?<V>>)
    requires bf >= 3 && |down| == 2 && down[1].minKey == key && parents == [root, root]
    ensures
      var level := RootLevel(bf, root, down[0].ref, key, down[1].ref);
      Linked(bf, true, level.heads, level.cells, down, parents, false)
  {
    var level := RootLevel(bf, root, down[0].ref, key, down[1].ref);
    var c := level.cells[0];
    assert c.data[0].value == Addr(down[0].ref) && c.data[1].value == Addr(down[1].ref);
    assert Fanout(bf, 0, level.heads[0], c, down, parents);
  }

  ghost function SplitTop<V>(bf: nat, levels: seq<Level<V>>, right: Node<V>, root: Node<V>): (after: seq<Level<V>>)
    requires |levels| > 1 && Splittable(bf, levels, |levels| - 1)
    ensures |after| == |levels| + 1 && |Last(after).heads| == 1 && Last(after).heads[0].ref == root
    ensures after[0].heads == levels[0].heads && after[0].cells == levels[0].cells
  {
    var k := |levels| - 1;
    var head := RightHead(bf, levels, k, right);
    SplitLast(bf, levels, k, right, [root, root])
      + [RootLevel(bf, root, Last(levels[k].heads).ref, head.minKey, right)]
  }

  lemma TopIsRoot<V>(bf: nat, levels: seq<Level<V>>, contents: seq<Pair<V>>, k: nat)
    requires Pending(bf, levels, contents, k)
    ensures |Last(levels).heads| == 1 && Last(levels).Sized() && Last(levels).parents[0] == null
  {
    assert Placed(|levels| - 1, Last(levels));
  }

  lemma SplitTopKeepsTree<V>(bf: nat, levels: seq<Level<V>>, contents: seq<Pair<V>>, right: Node<V>, root: Node<V>)
    requires |levels| > 1
    requires Pending(bf, levels, contents, |levels| - 1) && Last(Last(levels).cells).size == bf - 1
    requires right.level == |levels| - 1 && right.pos == 1 && !right.leaf
    requires root.level == |levels| && root.pos == 0 && !root.leaf
    ensures Splittable(bf, levels, |levels| - 1)
    ensures Pending(bf, SplitTop(bf, levels, right, root), contents, 0)
  {
    hide Linked, Leaves, Sorted, Fanout, WithChild, LeftHalf, RightHalf;
    var k := |levels| - 1;
    var up, down := levels[k], levels[k - 1];
    assert Placed(k, up) && Placed(k - 1, down) && LinkedAt(bf, levels, k, k);
    LastFanout(bf, levels, k);
    LinkSplit(bf, true, up.heads, up.cells, down.heads, down.parents, right);
    var after := SplitTop(bf, levels, right, root);
    LinkRoot(bf, root, after[k].heads[1].minKey, after[k].heads, [root, root]);
    forall l | 1 <= l < |after| ensures LinkedAt(bf, after, l, 0) {
      if l < k {
        assert LinkedAt(bf, levels, l, k);
      }
    }
    forall l | 0 <= l < |after| ensures Placed(l, after[l]) {
      if l <= k {
        assert Placed(l, levels[l]);
      }
    }
  }

  // The steps of an append on the leaves.

  function Stored<V>(c: Cell<V>, pair: Pair<V>): Cell<V>
    requires c.size < |c.data|
  {
    Cell(c.size + 1, c.data[c.size := Data(pair.key, User(pair.value))])
  }

  function Chained<V>(c: Cell<V>, next: Node<V>): Cell<V>
    requires c.size < |c.data|
  {
    c.(data := c.data[c.size := c.data[c.size].(value := Addr(next))])
  }

  predicate Above<V>(contents: seq<Pair<V>>, key: Key) {
    |contents| > 0 ==> Last(contents).key < key
  }

  lemma SortedSnoc<V>(contents: seq<Pair<V>>, pair: Pair<V>)
    requires Sorted(contents) && Above(contents, pair.key)
    ensures Sorted(contents + [pair])
  {
  }

  lemma LeafStays<V>(bf: nat, i: nat, h: Head<V>, c: Cell<V>, contents: seq<Pair<V>>, pair: Pair<V>)
    requires LeafHolds(bf, i, h, c, contents)
    ensures LeafHolds(bf, i, h, c, contents + [pair])
  {
  }

  lemma LastLeaf<V>(bf: nat, heads: seq<Head<V>>, cells: seq<Cell<V>>, contents: seq<Pair<V>>)
    requires Leaves(bf, heads, cells, contents)
    ensures
      var c := Last(cells);
      && c.size < bf == |c.data|
      && (c.size > 0 <==> |contents| > 0)
      && (c.size > 0 ==> c.data[c.size - 1] == Data(Last(contents).key, User(Last(contents).value)))
  {
    assert LeafHolds(bf, |heads| - 1, Last(heads), Last(cells), contents);
  }

  lemma LeafStored<V>(bf: nat, i: nat, h: Head<V>, c: Cell<V>, contents: seq<Pair<V>>, pair: Pair<V>)
    requires LeafHolds(bf, i, h, c, contents) && c.size < bf - 1 && h.first + c.size == |contents|
    ensures LeafHolds(bf, i, h, Stored(c, pair), contents + [pair])
  {
  }

  lemma LeavesStore<V>(bf: nat, heads: seq<Head<V>>, cells: seq<Cell<V>>, contents: seq<Pair<V>>, pair: Pair<V>)
    requires Leaves(bf, heads, cells, contents) && Last(cells).size < bf - 1
    ensures |Last(cells).data| == bf
    ensures Leaves(bf, heads, cells[|cells| - 1 := Stored(Last(cells), pair)], contents + [pair])
  {
    hide LeafHolds;
    LastLeaf(bf, heads, cells, contents);
    var last := |heads| - 1;
    forall i | 0 <= i < last ensures LeafHolds(bf, i, heads[i], cells[i], contents + [pair]) {
      LeafStays(bf, i, heads[i], cells[i], contents, pair);
    }
    LeafStored(bf, last, heads[last], cells[last], contents, pair);
  }

  function LeafCell<V>(bf: nat, pair: Pair<V>): Cell<V>
    requires bf > 0
  {
    Cell(1, Blank<V>(bf)[0 := Data(pair.key, User(pair.value))])
  }

  lemma LeafChained<V>(bf: nat, i: nat, h: Head<V>, c: Cell<V>, contents: seq<Pair<V>>, next: Node<V>)
    requires LeafHolds(bf, i, h, c, contents)
    ensures LeafHolds(bf, i, h, Chained(c, next), contents)
  {
  }

  lemma LeafFresh<V>(bf: nat, i: nat, leaf: Node<V>, contents: seq<Pair<V>>, pair: Pair<V>)
    requires bf >= 3
    ensures LeafHolds(bf, i, Head(leaf, |contents|, pair.key), LeafCell(bf, pair), contents + [pair])
  {
  }

  lemma LeavesChain<V>(bf: nat, heads: seq<Head<V>>, cells: seq<Cell<V>>, contents: seq<Pair<V>>, pair: Pair<V>,
                       leaf: Node<V>)
    requires bf >= 3 && Leaves(bf, heads, cells, contents) && Last(cells).size == bf - 1
    ensures |Last(cells).data| == bf
    ensures Leaves(bf, heads + [Head(leaf, |contents|, pair.key)],
                   cells[|cells| - 1 := Chained(Last(cells), leaf)] + [LeafCell(bf, pair)], contents + [pair])
  {
    hide LeafHolds;
    LastLeaf(bf, heads, cells, contents);
    var last := |heads| - 1;
    forall i | 0 <= i <= last ensures LeafHolds(bf, i, heads[i], cells[i], contents + [pair]) {
      LeafStays(bf, i, heads[i], cells[i], contents, pair);
    }
    LeafChained(bf, last, heads[last], cells[last], contents + [pair], leaf);
    LeafFresh(bf, last + 1, leaf, contents, pair);
  }

  function StoreLast<V>(levels: seq<Level<V>>, pair: Pair<V>): seq<Level<V>>
    requires |levels| > 0 && levels[0].Sized() && Last(levels[0].cells).size < |Last(levels[0].cells).data|
  {
    var c := levels[0].cells;
    levels[0 := levels[0].(cells := c[|c| - 1 := Stored(Last(c), pair)])]
  }

  /** A new last leaf holding `pair`, hung on the chain. */
  function ChainLeaf<V>(bf: nat, levels: seq<Level<V>>, pos: nat, pair: Pair<V>, leaf: Node<V>, parents: seq<Node?<V>>)
    : (after: seq<Level<V>>)
    requires bf > 0 && |levels| > 0 && levels[0].Sized() && Last(levels[0].cells).size < |Last(levels[0].cells).data|
  {
    var level := levels[0];
    levels[0 := Level(level.heads + [Head(leaf, pos, pair.key)],
                      level.cells[|level.cells| - 1 := Chained(Last(level.cells), leaf)] + [LeafCell(bf, pair)],
                      parents)]
  }

  lemma StoreKeepsTree<V>(bf: nat, levels: seq<Level<V>>, contents: seq<Pair<V>>, pair: Pair<V>)
    requires Pending(bf, levels, contents, 0) && levels[0].Sized() && Last(levels[0].cells).size < bf - 1
    requires Above(contents, pair.key)
    ensures |Last(levels[0].cells).data| == bf
    ensures Pending(bf, StoreLast(levels, pair), contents + [pair], 0)
  {
    hide Linked, Leaves, Sorted, Fanout;
    LastLeaf(bf, levels[0].heads, levels[0].cells, contents);
    LeavesStore(bf, levels[0].heads, levels[0].cells, contents, pair);
    SortedSnoc(contents, pair);
    var after := StoreLast(levels, pair);
    forall l | 1 <= l < |after| ensures LinkedAt(bf, after, l, 0) {
      assert LinkedAt(bf, levels, l, 0);
    }
    forall l | 0 <= l < |after| ensures Placed(l, after[l]) {
      assert Placed(l, levels[l]);
    }
  }

  lemma ChainKeepsTree<V>(bf: nat, levels: seq<Level<V>>, contents: seq<Pair<V>>, pair: Pair<V>, leaf: Node<V>)
    requires Pending(bf, levels, contents, 0) && |levels| > 1 && levels[0].Sized()
             && Last(levels[0].cells).size == bf - 1
    requires Above(contents, pair.key)
    requires leaf.level == 0 && leaf.pos == |levels[0].heads| && leaf.leaf
    ensures |Last(levels[0].cells).data| == bf
    ensures
      var parents := levels[0].parents + [Last(levels[0].parents)];
      Pending(bf, ChainLeaf(bf, levels, |contents|, pair, leaf, parents), contents + [pair], 1)
  {
    hide Linked, Leaves, Sorted, Fanout;
    var level, one := levels[0], 1;
    LastLeaf(bf, level.heads, level.cells, contents);
    LeavesChain(bf, level.heads, level.cells, contents, pair, leaf);
    SortedSnoc(contents, pair);
    var after := ChainLeaf(bf, levels, |contents|, pair, leaf, level.parents + [Last(level.parents)]);
    assert LinkedAt(bf, levels, 1, 0) && Placed(1, levels[1]);
    LinkGrows(bf, |levels| == 2, levels[1].heads, levels[1].cells, level.heads, level.parents,
              Last(after[0].heads), Last(level.parents));
    LastLeafParent(bf, levels, contents);
    forall l | 1 <= l < |after| ensures LinkedAt(bf, after, l, one) {
      assert LinkedAt(bf, levels, l, 0);
    }
    forall l | 0 <= l < |after| ensures Placed(l, after[l]) {
      assert Placed(l, levels[l]);
    }
  }

  lemma LastLeafParent<V>(bf: nat, levels: seq<Level<V>>, contents: seq<Pair<V>>)
    requires Pending(bf, levels, contents, 0) && |levels| > 1
    ensures |levels[0].parents| > 0 && |levels[1].heads| > 0
    ensures Last(levels[0].parents) == Last(levels[1].heads).ref
  {
    var up := levels[1];
    assert Placed(0, levels[0]) && Placed(1, up) && LinkedAt(bf, levels, 1, 0);
    assert Fanout(bf, |up.heads| - 1, Last(up.heads), Last(up.cells), levels[0].heads, levels[0].parents);
  }

  /** The first leaf is full: a second leaf and a root over the two. */
  ghost function GrowRoot<V>(bf: nat, levels: seq<Level<V>>, pos: nat, pair: Pair<V>, leaf: Node<V>, root: Node<V>)
    : (after: seq<Level<V>>)
    requires bf >= 3 && |levels| > 0 && levels[0].Sized() && Last(levels[0].cells).size < |Last(levels[0].cells).data|
    ensures |after| == |levels| + 1 && |Last(after).heads| == 1 && Last(after).heads[0].ref == root
    ensures after[0].heads == levels[0].heads + [Head(leaf, pos, pair.key)]
  {
    ChainLeaf(bf, levels, pos, pair, leaf, [root, root])
      + [RootLevel(bf, root, levels[0].heads[0].ref, pair.key, leaf)]
  }

  lemma GrowRootKeepsTree<V>(bf: nat, levels: seq<Level<V>>, contents: seq<Pair<V>>, pair: Pair<V>, leaf: Node<V>,
                             root: Node<V>)
    requires Pending(bf, levels, contents, 0) && |levels| == 1 && levels[0].Sized()
             && Last(levels[0].cells).size == bf - 1
    requires Above(contents, pair.key)
    requires leaf.level == 0 && leaf.pos == 1 && leaf.leaf
    requires root.level == 1 && root.pos == 0 && !root.leaf
    ensures |Last(levels[0].cells).data| == bf
    ensures Pending(bf, GrowRoot(bf, levels, |contents|, pair, leaf, root), contents + [pair], 0)
  {
    hide Linked, Leaves, Sorted, Fanout;
    var level := levels[0];
    LastLeaf(bf, level.heads, level.cells, contents);
    LeavesChain(bf, level.heads, level.cells, contents, pair, leaf);
    SortedSnoc(contents, pair);
    var after := GrowRoot(bf, levels, |contents|, pair, leaf, root);
    LinkRoot(bf, root, pair.key, after[0].heads, [root, root]);
    assert Placed(0, level) && Placed(0, after[0]) && Placed(1, after[1]);
    assert LinkedAt(bf, after, 1, 0);
  }

  /** The pending node already points to the node it is to hang on, which is not over-full. */
  lemma PendingParent<V>(bf: nat, levels: seq<Level<V>>, contents: seq<Pair<V>>, k: nat)
    requires 1 <= k < |levels| && Pending(bf, levels, contents, k)
    ensures levels[k].Sized() && levels[k - 1].Sized()
    ensures Last(levels[k - 1].parents) == Last(levels[k].heads).ref
    ensures Last(levels[k].cells).size < bf && bf >= 3
    ensures k == |levels| - 1 ==> |levels[k].heads| == 1
  {
    assert Placed(k, levels[k]) && Placed(k - 1, levels[k - 1]) && LinkedAt(bf, levels, k, k);
    LastFanout(bf, levels, k);
  }

  /** The last leaf has a free slot past its pairs, and ends with the last pair. */
  lemma LastLeafRoom<V>(bf: nat, levels: seq<Level<V>>, contents: seq<Pair<V>>)
    requires Pending(bf, levels, contents, 0)
    ensures bf >= 3 && levels[0].Sized()
    ensures
      var c := Last(levels[0].cells);
      && c.size < bf == |c.data|
      && (c.size > 0 <==> |contents| > 0)
      && (c.size > 0 ==> c.data[c.size - 1] == Data(Last(contents).key, User(Last(contents).value)))
  {
    assert Placed(0, levels[0]);
    LastLeaf(bf, levels[0].heads, levels[0].cells, contents);
  }

  /** Only the root has no parent. */
  lemma RootAlone<V>(bf: nat, levels: seq<Level<V>>, contents: seq<Pair<V>>, k: nat)
    requires k < |levels| && Pending(bf, levels, contents, k)
    ensures levels[k].Sized()
    ensures Last(levels[k].parents) == null <==> k == |levels| - 1
  {
    assert Placed(k, levels[k]);
    if k < |levels| - 1 {
      if k == 0 {
        LastLeafParent(bf, levels, contents);
      } else {
        LastParent(bf, levels, contents, k);
      }
    }
  }
}
