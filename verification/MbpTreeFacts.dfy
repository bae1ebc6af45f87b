/**
  What the shape of the tree gives its readers: the descent finds the right leaf, positions stay
  where they are under later appends, the depth is logarithmic, and a left-to-right reading
  through the child pointers is the contents.
*/
module MbpTreeFacts {
  import opened MbpTreeShape
  import opened MbpTreeHeap

  // Search.

  /** Keys from the least key of node `i` up to that of its right neighbour belong under node `i`. */
  ghost predicate Covers<V>(heads: seq<Head<V>>, i: nat, key: Key) {
    && i < |heads|
    && (i > 0 ==> heads[i].minKey <= key)
    && (i + 1 < |heads| ==> key < heads[i + 1].minKey)
  }

  lemma CoversInside<V>(heads: seq<Head<V>>, i: nat, key: Key)
    requires Covers(heads, i, key)
    ensures i < |heads|
  {
  }

  lemma LinkedNode<V>(bf: nat, levels: seq<Level<V>>, contents: seq<Pair<V>>, l: nat, i: nat)
    requires Pending(bf, levels, contents, 0) && 1 <= l < |levels| && i < |levels[l].heads|
    ensures
      var up, down := levels[l], levels[l - 1];
      && up.Sized() && down.Sized()
      && Linked(bf, l == |levels| - 1, up.heads, up.cells, down.heads, down.parents, false)
      && up.cells[i].size < bf == |up.cells[i].data| && up.heads[i].first + up.cells[i].size < |down.heads|
      && forall j | 0 <= j <= up.cells[i].size ::
          up.cells[i].data[j].value == Addr(down.heads[up.heads[i].first + j].ref)
  {
    assert Placed(l, levels[l]) && Placed(l - 1, levels[l - 1]) && LinkedAt(bf, levels, l, 0);
    assert Fanout(bf, i, levels[l].heads[i], levels[l].cells[i], levels[l - 1].heads, levels[l - 1].parents);
  }

  /** The child that the separators of a node select covers the key among all nodes of its level. */
  lemma Descend<V>(bf: nat, top: bool, heads: seq<Head<V>>, cells: seq<Cell<V>>,
                   down: seq<Head<V>>, parents: seq<Node?<V>>, i: nat, j: nat, key: Key)
    requires Linked(bf, top, heads, cells, down, parents, false) && Covers(heads, i, key)
    requires j <= cells[i].size <= |cells[i].data|
    requires forall q | 0 <= q < j :: cells[i].data[q].key <= key
    requires j < cells[i].size ==> key < cells[i].data[j].key
    ensures Covers(down, heads[i].first + j, key)
  {
    assert Fanout(bf, i, heads[i], cells[i], down, parents);
    if i + 1 < |heads| {
      assert Fanout(bf, i + 1, heads[i + 1], cells[i + 1], down, parents);
    }
    if j > 0 {
      assert cells[i].data[j - 1].key == down[heads[i].first + (j - 1) + 1].minKey;
    } else if i == 0 {
      assert heads[0].first == 0;
    }
  }

  lemma RootCovers<V>(bf: nat, levels: seq<Level<V>>, contents: seq<Pair<V>>, key: Key)
    requires Pending(bf, levels, contents, 0)
    ensures Covers(levels[|levels| - 1].heads, 0, key)
  {
  }

  lemma LeafSize<V>(bf: nat, levels: seq<Level<V>>, contents: seq<Pair<V>>, p: nat)
    requires Pending(bf, levels, contents, 0) && levels[0].Sized() && p < |levels[0].heads|
    ensures levels[0].cells[p].size < bf == |levels[0].cells[p].data|
  {
    assert LeafHolds(bf, p, levels[0].heads[p], levels[0].cells[p], contents);
  }

  /** Position `g` of the contents is slot `idx` of `leaf`. */
  ghost predicate Stands<V>(leaves: Level<V>, leaf: Node<V>, idx: nat, g: nat) {
    && leaves.Sized()
    && leaf.pos < |leaves.heads| && leaves.heads[leaf.pos].ref == leaf
    && idx < leaves.cells[leaf.pos].size
    && g == leaves.heads[leaf.pos].first + idx
  }

  lemma StandsHolds<V>(bf: nat, levels: seq<Level<V>>, contents: seq<Pair<V>>, leaf: Node<V>, idx: nat, g: nat)
    requires Pending(bf, levels, contents, 0) && Stands(levels[0], leaf, idx, g)
    ensures g < |contents| && idx < |levels[0].cells[leaf.pos].data|
    ensures levels[0].cells[leaf.pos].data[idx] == Data(contents[g].key, User(contents[g].value))
  {
    assert LeafHolds(bf, leaf.pos, levels[0].heads[leaf.pos], levels[0].cells[leaf.pos], contents);
  }

  /** Leaves only grow: a position, once taken, keeps its slot under every later append. */
  lemma StandsFirm<V>(bf: nat, levels: seq<Level<V>>, contents: seq<Pair<V>>,
                      levels': seq<Level<V>>, contents': seq<Pair<V>>, leaf: Node<V>, idx: nat, g: nat)
    requires Pending(bf, levels, contents, 0) && Pending(bf, levels', contents', 0)
    requires levels[0].heads <= levels'[0].heads && contents <= contents'
    requires Stands(levels[0], leaf, idx, g)
    ensures Stands(levels'[0], leaf, idx, g)
  {
    hide LinkedAt;
    assert Placed(0, levels[0]) && Placed(0, levels'[0]);
    var h, c, c' := levels[0].heads, levels[0].cells, levels'[0].cells;
    assert LeafHolds(bf, leaf.pos, h[leaf.pos], c[leaf.pos], contents);
    assert LeafHolds(bf, leaf.pos, h[leaf.pos], c'[leaf.pos], contents');
  }

  /** The slot after a slot: in the same leaf, or the first slot of the next leaf of the chain. */
  lemma StandsNext<V>(bf: nat, levels: seq<Level<V>>, contents: seq<Pair<V>>, leaf: Node<V>, idx: nat, g: nat)
    requires Pending(bf, levels, contents, 0) && Stands(levels[0], leaf, idx, g)
    ensures
      var c := levels[0].cells[leaf.pos];
      && c.size < |c.data|
      && (idx + 1 < c.size ==> Stands(levels[0], leaf, idx + 1, g + 1) && g + 1 < |contents|)
      && (idx + 1 == c.size ==> c.data[c.size].value.Addr?)
      && (idx + 1 == c.size ==>
            var next := c.data[c.size].value.node;
            if g + 1 < |contents| then next != null && Stands(levels[0], next, 0, g + 1) else next == null)
  {
    hide LinkedAt;
    assert Placed(0, levels[0]);
    var p, leaves := leaf.pos, levels[0];
    assert LeafHolds(bf, p, leaves.heads[p], leaves.cells[p], contents);
    if p + 1 < |leaves.heads| {
      assert LeafHolds(bf, p + 1, leaves.heads[p + 1], leaves.cells[p + 1], contents);
    }
  }

  /** `g` is the greatest position whose key is not above `key`. */
  ghost predicate Floor<V>(contents: seq<Pair<V>>, key: Key, g: nat) {
    && g < |contents| && contents[g].key <= key
    && forall q | g < q < |contents| :: key < contents[q].key
  }

  /** The pairs from the greatest key not above `key` on; none when every key is above it. */
  function From<V>(contents: seq<Pair<V>>, key: Key): seq<Pair<V>> {
    if |contents| > 1 && contents[1].key <= key then From(contents[1..], key)
    else if |contents| > 0 && contents[0].key <= key then contents
    else []
  }

  lemma {:induction false} FloorStarts<V>(contents: seq<Pair<V>>, key: Key, g: nat)
    requires Sorted(contents) && Floor(contents, key, g)
    ensures From(contents, key) == contents[g..]
  {
    if g > 0 {
      assert contents[1].key <= key;
      assert forall q | 0 <= q < |contents| - 1 :: contents[1..][q] == contents[q + 1];
      FloorStarts(contents[1..], key, g - 1);
      assert contents[1..][g - 1..] == contents[g..];
    } else {
      assert contents[0..] == contents;
    }
  }

  lemma SliceSnoc<T>(s: seq<T>, a: nat, b: nat)
    requires a <= b < |s|
    ensures s[a..b + 1] == s[a..b] + [s[b]]
  {
  }

  lemma NothingFrom<V>(contents: seq<Pair<V>>, key: Key)
    requires forall q | 0 <= q < |contents| :: key < contents[q].key
    ensures From(contents, key) == []
  {
  }

  /** The last slot of the covering leaf whose key is not above `key` is the floor of `key`. */
  lemma LeafFloorIsFloor<V>(bf: nat, levels: seq<Level<V>>, contents: seq<Pair<V>>, p: nat, idx: nat, key: Key)
    requires Pending(bf, levels, contents, 0) && levels[0].Sized() && Covers(levels[0].heads, p, key)
    requires idx < levels[0].cells[p].size <= |levels[0].cells[p].data|
    requires levels[0].cells[p].data[idx].key <= key
    requires idx + 1 < levels[0].cells[p].size ==> key < levels[0].cells[p].data[idx + 1].key
    ensures Stands(levels[0], levels[0].heads[p].ref, idx, levels[0].heads[p].first + idx)
    ensures Floor(contents, key, levels[0].heads[p].first + idx)
  {
    hide LinkedAt;
    assert Placed(0, levels[0]);
    var leaves := levels[0];
    var g := leaves.heads[p].first + idx;
    assert LeafHolds(bf, p, leaves.heads[p], leaves.cells[p], contents);
    if idx + 1 == leaves.cells[p].size && p + 1 < |leaves.heads| {
      assert LeafHolds(bf, p + 1, leaves.heads[p + 1], leaves.cells[p + 1], contents);
      assert leaves.cells[p + 1].data[0].key == contents[g + 1].key;
    }
    assert g + 1 < |contents| ==> key < contents[g + 1].key;
  }

  /** A covering leaf that holds nothing, or nothing low enough, means that no key is low enough. */
  lemma NoFloor<V>(bf: nat, levels: seq<Level<V>>, contents: seq<Pair<V>>, p: nat, key: Key)
    requires Pending(bf, levels, contents, 0) && levels[0].Sized() && Covers(levels[0].heads, p, key)
    requires |levels[0].cells[p].data| > 0
    requires levels[0].cells[p].size > 0 ==> key < levels[0].cells[p].data[0].key
    ensures forall q | 0 <= q < |contents| :: key < contents[q].key
  {
    hide LinkedAt;
    var leaves := levels[0];
    assert LeafHolds(bf, p, leaves.heads[p], leaves.cells[p], contents);
    if leaves.cells[p].size > 0 {
      assert leaves.cells[p].data[0].key == contents[0].key;
    }
  }

  // Shape, node by node.

  /** How full each node is: exactly, but for the last node of each level. */
  lemma NodeShape<V>(bf: nat, levels: seq<Level<V>>, contents: seq<Pair<V>>, l: nat, i: nat)
    requires Pending(bf, levels, contents, 0) && l < |levels| && i < |levels[l].heads| && levels[l].Sized()
    ensures
      var c := levels[l].cells[i];
      && c.size < bf == |c.data|
      && (l == 0 && i > 0 ==> c.size > 0)
      && (l == 0 && i + 1 < |levels[0].heads| ==>
            c.size == bf - 1 && c.data[c.size].value == Addr(levels[0].heads[i + 1].ref))
      && (l > 0 && i + 1 < |levels[l].heads| ==> c.size == bf / 2)
      && (l > 0 ==> c.size >= if l == |levels| - 1 then 1 else bf - 1 - bf / 2)
  {
    if l == 0 {
      hide LinkedAt;
      assert LeafHolds(bf, i, levels[0].heads[i], levels[0].cells[i], contents);
    } else {
      hide Leaves;
      LinkedNode(bf, levels, contents, l, i);
    }
  }

  /** Node `q` of a level is a child of a node of the level above. */
  lemma {:induction false} OwnerOf<V>(bf: nat, top: bool, heads: seq<Head<V>>, cells: seq<Cell<V>>,
                                      down: seq<Head<V>>, parents: seq<Node?<V>>, q: nat, i: nat) returns (owner: nat)
    requires Linked(bf, top, heads, cells, down, parents, false)
    requires q < |down| && i < |heads| && heads[i].first <= q
    ensures owner < |heads| && heads[owner].first <= q <= heads[owner].first + cells[owner].size && q < |parents|
    ensures parents[q] == heads[owner].ref
    decreases |heads| - i
  {
    assert Fanout(bf, i, heads[i], cells[i], down, parents);
    if i + 1 < |heads| && heads[i + 1].first <= q {
      owner := OwnerOf(bf, top, heads, cells, down, parents, q, i + 1);
    } else {
      owner := i;
    }
  }

  lemma ParentShape<V>(bf: nat, levels: seq<Level<V>>, contents: seq<Pair<V>>, l: nat, i: nat)
    requires Pending(bf, levels, contents, 0) && l < |levels| && i < |levels[l].heads| && levels[l].Sized()
    ensures levels[l].parents[i] == null <==> l == |levels| - 1
  {
    hide Leaves, Sorted, Fanout;
    assert Placed(l, levels[l]);
    if l < |levels| - 1 {
      var up := levels[l + 1];
      assert Placed(l + 1, up) && LinkedAt(bf, levels, l + 1, 0);
      var owner := OwnerOf(bf, l + 1 == |levels| - 1, up.heads, up.cells, levels[l].heads, levels[l].parents, i, 0);
    }
  }

  lemma ChildShape<V>(bf: nat, levels: seq<Level<V>>, contents: seq<Pair<V>>, l: nat, i: nat, j: nat)
    requires Pending(bf, levels, contents, 0) && 1 <= l < |levels| && i < |levels[l].heads| && levels[l].Sized()
    requires j <= levels[l].cells[i].size
    ensures
      var h, c, down := levels[l].heads[i], levels[l].cells[i], levels[l - 1];
      && down.Sized() && h.first + j < |down.heads| && j < |c.data|
      && c.data[j].value == Addr(down.heads[h.first + j].ref)
      && down.parents[h.first + j] == h.ref
      && (j > 0 ==> c.data[j - 1].key == down.heads[h.first + j].minKey)
  {
    hide Leaves, Sorted;
    assert Placed(l, levels[l]) && Placed(l - 1, levels[l - 1]) && LinkedAt(bf, levels, l, 0);
    assert Fanout(bf, i, levels[l].heads[i], levels[l].cells[i], levels[l - 1].heads, levels[l - 1].parents);
  }

  /** The key a separator carries is the first key under the child on its right. */
  lemma {:induction false} MinKeyIsFirst<V>(bf: nat, levels: seq<Level<V>>, contents: seq<Pair<V>>, l: nat, i: nat)
    requires Pending(bf, levels, contents, 0) && l < |levels| && 0 < i < |levels[l].heads|
    ensures Start(levels, contents, l, i) < |contents|
    ensures levels[l].heads[i].minKey == contents[Start(levels, contents, l, i)].key
  {
    hide Sorted;
    assert Placed(l, levels[l]);
    if l == 0 {
      assert LeafHolds(bf, i, levels[0].heads[i], levels[0].cells[i], contents);
    } else {
      MinKeyDown(bf, levels, contents, l, i);
      MinKeyIsFirst(bf, levels, contents, l - 1, levels[l].heads[i].first);
    }
  }

  lemma MinKeyDown<V>(bf: nat, levels: seq<Level<V>>, contents: seq<Pair<V>>, l: nat, i: nat)
    requires Pending(bf, levels, contents, 0) && 1 <= l < |levels| && 0 < i < |levels[l].heads|
    ensures 0 < levels[l].heads[i].first < |levels[l - 1].heads|
    ensures levels[l].heads[i].minKey == levels[l - 1].heads[levels[l].heads[i].first].minKey
  {
    hide Leaves, Sorted;
    var up := levels[l];
    assert Placed(l, up) && LinkedAt(bf, levels, l, 0);
    assert Fanout(bf, i, up.heads[i], up.cells[i], levels[l - 1].heads, levels[l - 1].parents);
    assert up.heads[i - 1 + 1].first == up.heads[i - 1].first + up.cells[i - 1].size + 1;
  }

  // Depth.

  function Power(b: nat, e: nat): nat {
    if e == 0 then 1 else b * Power(b, e - 1)
  }

  /** Each node but the last has half the branch factor of children, and one more. */
  lemma {:induction false} FirstOf<V>(bf: nat, heads: seq<Head<V>>, cells: seq<Cell<V>>, i: nat)
    requires i < |heads| == |cells| && heads[0].first == 0
    requires forall i | 0 <= i < |heads| - 1 ::
               cells[i].size == bf / 2 && heads[i + 1].first == heads[i].first + cells[i].size + 1
    ensures heads[i].first == i * (bf / 2 + 1)
  {
    if i > 0 {
      FirstOf(bf, heads, cells, i - 1);
      assert heads[i - 1 + 1].first == heads[i - 1].first + cells[i - 1].size + 1;
      assert i * (bf / 2 + 1) == (i - 1) * (bf / 2 + 1) + (bf / 2 + 1);
    }
  }

  lemma {:induction false} LeafFirstOf<V>(bf: nat, heads: seq<Head<V>>, cells: seq<Cell<V>>, i: nat)
    requires bf > 0 && i < |heads| == |cells| && heads[0].first == 0
    requires forall i | 0 <= i < |heads| - 1 ::
               cells[i].size == bf - 1 && heads[i + 1].first == heads[i].first + cells[i].size
    ensures heads[i].first == i * (bf - 1)
  {
    if i > 0 {
      LeafFirstOf(bf, heads, cells, i - 1);
      assert heads[i - 1 + 1].first == heads[i - 1].first + cells[i - 1].size;
      assert i * (bf - 1) == (i - 1) * (bf - 1) + (bf - 1);
    }
  }

  lemma LevelWidth<V>(bf: nat, top: bool, heads: seq<Head<V>>, cells: seq<Cell<V>>, down: seq<Head<V>>,
                      parents: seq<Node?<V>>)
    requires Linked(bf, top, heads, cells, down, parents, false)
    ensures |down| >= (|heads| - 1) * (bf / 2 + 1) + 1
    ensures top ==> |down| >= (|heads| - 1) * (bf / 2 + 1) + 2
  {
    FirstOf(bf, heads, cells, |heads| - 1);
  }

  lemma LeafWidth<V>(bf: nat, heads: seq<Head<V>>, cells: seq<Cell<V>>, contents: seq<Pair<V>>)
    requires bf > 0 && Leaves(bf, heads, cells, contents) && |heads| > 1
    ensures |contents| >= (|heads| - 1) * (bf - 1) + 1
  {
    LeafFirstOf(bf, heads, cells, |heads| - 1);
    assert LeafHolds(bf, |heads| - 1, heads[|heads| - 1], cells[|heads| - 1], contents);
  }

  lemma ScaleUp(a: nat, b: nat, m: nat, p: nat)
    requires a >= p && b >= a * m + 1
    ensures b - 1 >= m * p
  {
    assert a * m >= p * m;
  }

  /** Below the root, each level multiplies the number of nodes by more than half the branch factor. */
  lemma {:induction false} WidthBelow<V>(bf: nat, levels: seq<Level<V>>, contents: seq<Pair<V>>, l: nat)
    requires Pending(bf, levels, contents, 0) && l < |levels| - 1
    ensures |levels[l].heads| - 1 >= Power(bf / 2 + 1, |levels| - 2 - l)
    decreases |levels| - l
  {
    hide Linked, Leaves, Sorted;
    var up := levels[l + 1];
    assert LinkedAt(bf, levels, l + 1, 0) && Placed(l + 1, up);
    LevelWidth(bf, l + 1 == |levels| - 1, up.heads, up.cells, levels[l].heads, levels[l].parents);
    if l < |levels| - 2 {
      WidthBelow(bf, levels, contents, l + 1);
      ScaleUp(|up.heads| - 1, |levels[l].heads|, bf / 2 + 1, Power(bf / 2 + 1, |levels| - 2 - (l + 1)));
    }
  }

  /** With `h` internal levels a tree holds at least (bf - 1) * (bf / 2 + 1)^(h - 1) + 1 pairs. */
  lemma DepthIsLogarithmic<V>(bf: nat, levels: seq<Level<V>>, contents: seq<Pair<V>>)
    requires Pending(bf, levels, contents, 0) && |levels| > 1
    ensures |contents| >= (bf - 1) * Power(bf / 2 + 1, |levels| - 2) + 1
  {
    hide Linked, LinkedAt, Leaves, Sorted, Power;
    WidthBelow(bf, levels, contents, 0);
    var wide := |levels[0].heads| - 1;
    PowerPositive(bf / 2 + 1, |levels| - 2);
    LeafWidth(bf, levels[0].heads, levels[0].cells, contents);
    ScaleUp(wide, |contents|, bf - 1, Power(bf / 2 + 1, |levels| - 2));
  }

  lemma {:induction false} PowerPositive(b: nat, e: nat)
    requires b > 0
    ensures Power(b, e) > 0
  {
    if e > 0 {
      PowerPositive(b, e - 1);
      assert b * Power(b, e - 1) >= 1 * Power(b, e - 1);
    }
  }

  // Reading the tree through its pointers, without the levels.

  ghost function ReadLeaf<V>(data: seq<Data<V>>, n: nat): seq<Pair<V>>
    requires n <= |data|
  {
    if n == 0 then [] else
      ReadLeaf(data, n - 1)
        + match data[n - 1].value { case User(v) => [Pair(data[n - 1].key, v)] case Addr(_) => [] }
  }

  /** The pairs under `x`, from left to right, down to a depth. */
  ghost function Read<V>(h: map<Node<V>, Image<V>>, x: Node<V>, depth: nat): seq<Pair<V>>
    decreases depth, 1, 0
  {
    if x !in h || h[x].cell.size >= |h[x].cell.data| then []
    else if x.leaf then ReadLeaf(h[x].cell.data, h[x].cell.size)
    else if depth == 0 then []
    else ReadChildren(h, h[x].cell.data, h[x].cell.size + 1, depth - 1)
  }

  ghost function ReadChildren<V>(h: map<Node<V>, Image<V>>, data: seq<Data<V>>, n: nat, depth: nat): seq<Pair<V>>
    requires n <= |data|
    decreases depth, 2, n
  {
    if n == 0 then [] else
      ReadChildren(h, data, n - 1, depth)
        + match data[n - 1].value {
            case User(_) => []
            case Addr(child) => if child == null then [] else Read(h, child, depth)
          }
  }

  /** The position in the contents where the pairs under node `i` of level `l` begin. */
  ghost function Start<V>(levels: seq<Level<V>>, contents: seq<Pair<V>>, l: nat, i: nat): nat {
    if l >= |levels| || i >= |levels[l].heads| then |contents|
    else if l == 0 then levels[0].heads[i].first
    else Start(levels, contents, l - 1, levels[l].heads[i].first)
  }

  lemma {:induction false} ReadLeafIs<V>(bf: nat, i: nat, h: Head<V>, c: Cell<V>, contents: seq<Pair<V>>, n: nat)
    requires LeafHolds(bf, i, h, c, contents) && n <= c.size
    ensures ReadLeaf(c.data, n) == contents[h.first..h.first + n]
  {
    if n > 0 {
      ReadLeafIs(bf, i, h, c, contents, n - 1);
      assert contents[h.first..h.first + n] == contents[h.first..h.first + (n - 1)] + [contents[h.first + (n - 1)]];
    }
  }

  /** Where the pairs of a node end, in terms of its children. */
  lemma StartNext<V>(bf: nat, levels: seq<Level<V>>, contents: seq<Pair<V>>, l: nat, i: nat)
    requires Pending(bf, levels, contents, 0) && 1 <= l < |levels| && i < |levels[l].heads|
    ensures levels[l].Sized() && levels[l - 1].Sized()
    ensures Fanout(bf, i, levels[l].heads[i], levels[l].cells[i], levels[l - 1].heads, levels[l - 1].parents)
    ensures Start(levels, contents, l, i) == Start(levels, contents, l - 1, levels[l].heads[i].first)
    ensures Start(levels, contents, l, i + 1)
         == Start(levels, contents, l - 1, levels[l].heads[i].first + levels[l].cells[i].size + 1)
  {
    hide Leaves, Sorted, Fanout;
    assert Placed(l, levels[l]) && Placed(l - 1, levels[l - 1]) && LinkedAt(bf, levels, l, 0);
  }

  lemma {:induction false} ReadIs<V>(bf: nat, levels: seq<Level<V>>, contents: seq<Pair<V>>,
                                        h: map<Node<V>, Image<V>>, l: nat, i: nat)
    requires Pending(bf, levels, contents, 0) && forall l | 0 <= l < |levels| :: Agrees(l, levels[l], h)
    requires l < |levels| && i < |levels[l].heads|
    ensures Start(levels, contents, l, i) <= Start(levels, contents, l, i + 1) <= |contents|
    ensures Read(h, levels[l].heads[i].ref, l) ==
        contents[Start(levels, contents, l, i)..Start(levels, contents, l, i + 1)]
    decreases l, 1, 0
  {
    hide Linked, LinkedAt, Leaves, Sorted, Fanout, Agrees;
    assert Agrees(l, levels[l], h);
    AgreesAt(l, levels[l], h, i);
    if l == 0 {
      ReadFirst(bf, levels, contents, i);
    } else {
      StartNext(bf, levels, contents, l, i);
      FanoutSize(bf, i, levels[l].heads[i], levels[l].cells[i], levels[l - 1].heads, levels[l - 1].parents);
      ReadChildrenIs(bf, levels, contents, h, l, i, levels[l].cells[i].size + 1);
    }
  }

  lemma AgreesAt<V>(l: nat, level: Level<V>, h: map<Node<V>, Image<V>>, i: nat)
    requires Agrees(l, level, h) && i < |level.heads|
    ensures level.Sized()
    ensures var x := level.heads[i].ref; x in h && x.leaf == (l == 0) && h[x].cell == level.cells[i]
  {
  }

  lemma ReadFirst<V>(bf: nat, levels: seq<Level<V>>, contents: seq<Pair<V>>, i: nat)
    requires Pending(bf, levels, contents, 0) && i < |levels[0].heads| && levels[0].Sized()
    ensures
      var c := levels[0].cells[i];
      && c.size < |c.data|
      && Start(levels, contents, 0, i) <= Start(levels, contents, 0, i + 1) <= |contents|
      && ReadLeaf(c.data, c.size) == contents[Start(levels, contents, 0, i)..Start(levels, contents, 0, i + 1)]
  {
    assert LeafHolds(bf, i, levels[0].heads[i], levels[0].cells[i], contents);
    ReadLeafIs(bf, i, levels[0].heads[i], levels[0].cells[i], contents, levels[0].cells[i].size);
  }

  lemma FanoutSize<V>(bf: nat, i: nat, h: Head<V>, c: Cell<V>, down: seq<Head<V>>, parents: seq<Node?<V>>)
    requires Fanout(bf, i, h, c, down, parents)
    ensures c.size < bf == |c.data| && h.first + c.size < |down|
    ensures forall j | 0 <= j <= c.size :: c.data[j].value == Addr(down[h.first + j].ref)
  {
  }

  lemma {:induction false} ReadChildrenIs<V>(bf: nat, levels: seq<Level<V>>, contents: seq<Pair<V>>,
                                                h: map<Node<V>, Image<V>>,
                                             l: nat, i: nat, n: nat)
    requires Pending(bf, levels, contents, 0) && forall l | 0 <= l < |levels| :: Agrees(l, levels[l], h)
    requires 1 <= l < |levels| && i < |levels[l].heads| && levels[l].Sized() && n <= levels[l].cells[i].size + 1
    requires Fanout(bf, i, levels[l].heads[i], levels[l].cells[i], levels[l - 1].heads, levels[l - 1].parents)
    ensures n <= |levels[l].cells[i].data|
    ensures
      var first := levels[l].heads[i].first;
      && Start(levels, contents, l - 1, first) <= Start(levels, contents, l - 1, first + n) <= |contents|
      && ReadChildren(h, levels[l].cells[i].data, n, l - 1)
         == contents[Start(levels, contents, l - 1, first)..Start(levels, contents, l - 1, first + n)]
    decreases l, 0, n
  {
    hide Linked, LinkedAt, Leaves, Sorted, Fanout, Agrees, Read;
    var head, c := levels[l].heads[i], levels[l].cells[i];
    FanoutSize(bf, i, head, c, levels[l - 1].heads, levels[l - 1].parents);
    if n == 0 {
      ReadIs(bf, levels, contents, h, l - 1, head.first);
    } else {
      var q := head.first + (n - 1);
      ReadChildrenIs(bf, levels, contents, h, l, i, n - 1);
      ReadIs(bf, levels, contents, h, l - 1, q);
      assert c.data[n - 1].value == Addr(levels[l - 1].heads[q].ref);
    }
  }

  /** Reading from the root through the child pointers gives the contents: every pair, once, in order. */
  lemma ReadsContents<V>(bf: nat, levels: seq<Level<V>>, contents: seq<Pair<V>>, h: map<Node<V>, Image<V>>)
    requires Pending(bf, levels, contents, 0) && forall l | 0 <= l < |levels| :: Agrees(l, levels[l], h)
    ensures |levels[|levels| - 1].heads| == 1
    ensures Read(h, levels[|levels| - 1].heads[0].ref, |levels| - 1) == contents
  {
    hide Linked, LinkedAt, Leaves, Sorted, Agrees, Read;
    var top := |levels| - 1;
    ReadIs(bf, levels, contents, h, top, 0);
    StartsAtZero(bf, levels, contents, top);
  }

  lemma {:induction false} StartsAtZero<V>(bf: nat, levels: seq<Level<V>>, contents: seq<Pair<V>>, l: nat)
    requires Pending(bf, levels, contents, 0) && l < |levels|
    ensures |levels[l].heads| > 0 && Start(levels, contents, l, 0) == 0
  {
    assert Placed(l, levels[l]);
    if l > 0 {
      assert LinkedAt(bf, levels, l, 0);
      StartsAtZero(bf, levels, contents, l - 1);
    }
  }

  // Runs of appends.

  /** What a sequence of appends leaves in a tree that held `contents`. */
  function Accepted<V>(contents: seq<Pair<V>>, pairs: seq<Pair<V>>): seq<Pair<V>>
    decreases |pairs|
  {
    if pairs == [] then contents
    else Accepted(if Above(contents, pairs[0].key) then contents + [pairs[0]] else contents, pairs[1..])
  }

  lemma EmptyRun<V>()
    ensures Accepted<V>([], []) == []
  {
  }

  /** The pairs whose key is above the key of every earlier pair. */
  function Records<V>(pairs: seq<Pair<V>>): seq<Pair<V>> {
    if pairs == [] then [] else
      var n := |pairs| - 1;
      Records(pairs[..n]) + if forall j | 0 <= j < n :: pairs[j].key < pairs[n].key then [pairs[n]] else []
  }

  lemma {:induction false} AcceptedSnoc<V>(contents: seq<Pair<V>>, pairs: seq<Pair<V>>, p: Pair<V>)
    ensures
      var was := Accepted(contents, pairs);
      Accepted(contents, pairs + [p]) == if Above(was, p.key) then was + [p] else was
    decreases |pairs|
  {
    if pairs == [] {
      assert (pairs + [p])[1..] == [];
    } else {
      assert (pairs + [p])[1..] == pairs[1..] + [p];
      AcceptedSnoc(if Above(contents, pairs[0].key) then contents + [pairs[0]] else contents, pairs[1..], p);
    }
  }

  /** The last record has the greatest key of all. */
  lemma {:induction false} LastRecord<V>(pairs: seq<Pair<V>>)
    requires pairs != []
    ensures Records(pairs) != []
    ensures forall j | 0 <= j < |pairs| :: pairs[j].key <= Last(Records(pairs)).key
    ensures exists j | 0 <= j < |pairs| :: pairs[j] == Last(Records(pairs))
  {
    var n := |pairs| - 1;
    if n > 0 {
      LastRecord(pairs[..n]);
      var j :| 0 <= j < n && pairs[..n][j] == Last(Records(pairs[..n]));
      assert pairs[j] == pairs[..n][j];
      assert forall q | 0 <= q < n :: pairs[q] == pairs[..n][q];
    }
  }

  /** An append run from an empty tree keeps exactly the records of the run. */
  lemma {:induction false} AcceptsRecords<V>(pairs: seq<Pair<V>>)
    ensures Accepted([], pairs) == Records(pairs)
    decreases |pairs|
  {
    if pairs != [] {
      var n := |pairs| - 1;
      assert pairs == pairs[..n] + [pairs[n]];
      AcceptedSnoc([], pairs[..n], pairs[n]);
      AcceptsRecords(pairs[..n]);
      if n > 0 {
        LastRecord(pairs[..n]);
        var j :| 0 <= j < n && pairs[..n][j] == Last(Records(pairs[..n]));
        assert pairs[j] == pairs[..n][j];
        assert forall q | 0 <= q < n :: pairs[q] == pairs[..n][q];
      }
    }
  }
}
