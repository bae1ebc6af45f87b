/**
  How the heap of src/mbptree.c agrees with the levels of the tree, and how it goes on agreeing
  after the stores of each step of an append.
*/
module MbpTreeHeap {
  import opened MbpTreeShape

  ghost function CellOf<V>(x: Node<V>): Cell<V>
    reads x, x.data
  {
    Cell(x.size, x.data[..])
  }

  /** What the heap says of a node. */
  datatype Image<V> = Image(cell: Cell<V>, parent: Node?<V>)

  ghost function Snapshot<V>(nodes: set<Node<V>>): map<Node<V>, Image<V>>
    reads nodes, set n | n in nodes :: n.data
  {
    map x | x in nodes :: Image(CellOf(x), x.parent)
  }

  /** The footprint covers every node and its array, and no two nodes share an array. */
  ghost predicate Owned<V>(nodes: set<Node<V>>, footprint: set<object>) {
    && (forall n | n in nodes :: n in footprint && n.data in footprint)
    && (forall x, y | x in nodes && y in nodes && x != y :: x.data != y.data)
  }

  lemma OwnedMore<V>(nodes: set<Node<V>>, footprint: set<object>, x: Node<V>)
    requires Owned(nodes, footprint) && x.data !in footprint
    ensures Owned(nodes + {x}, footprint + {x, x.data})
  {
  }

  lemma OwnedTwo<V>(nodes: set<Node<V>>, footprint: set<object>, x: Node<V>, y: Node<V>)
    requires Owned(nodes, footprint) && x.data !in footprint && y.data !in footprint && x.data != y.data
    ensures Owned(nodes + {x} + {y}, footprint + {x, x.data, y, y.data})
  {
    OwnedMore(nodes, footprint, x);
    assert footprint + {x, x.data, y, y.data} == footprint + {x, x.data} + {y, y.data};
  }

  ghost predicate Agrees<V>(l: nat, level: Level<V>, h: map<Node<V>, Image<V>>) {
    && level.Sized()
    && forall i | 0 <= i < |level.heads| ::
         var x := level.heads[i].ref;
         && x in h && x.level == l && x.pos == i && x.leaf == (l == 0)
         && h[x] == Image(level.cells[i], level.parents[i])
  }

  /** A level none of whose nodes changed. */
  lemma LevelStays<V>(l: nat, level: Level<V>, h: map<Node<V>, Image<V>>, after: map<Node<V>, Image<V>>)
    requires Agrees(l, level, h)
    requires forall x | x in h && x.level == l :: x in after && after[x] == h[x]
    ensures Agrees(l, level, after)
  {
  }

  /** The level whose last nodes went to a new parent. */
  lemma LevelAdopted<V>(l: nat, level: Level<V>, h: map<Node<V>, Image<V>>, after: map<Node<V>, Image<V>>, from: nat,
                        right: Node<V>)
    requires Agrees(l, level, h)
    requires forall x | x in h && x.level == l :: x in after && after[x].cell == h[x].cell
    requires forall x | x in h && x.level == l && x.pos < from :: after[x].parent == h[x].parent
    requires forall i | from <= i < |level.heads| ::
              level.heads[i].ref in after && after[level.heads[i].ref].parent == right
    ensures Agrees(l, level.(parents := Adopted(level.parents, from, right)), after)
  {
  }

  /** The level whose last node changed and which gained a node. */
  lemma LevelSplit<V>(l: nat, level: Level<V>, h: map<Node<V>, Image<V>>, after: map<Node<V>, Image<V>>,
                      left: Cell<V>, head: Head<V>, right: Cell<V>, parents: seq<Node?<V>>)
    requires Agrees(l, level, h)
    requires forall x | x in h && x.level == l && x.pos < |level.heads| - 1 :: x in after && after[x].cell == h[x].cell
    requires Last(level.heads).ref in after && after[Last(level.heads).ref].cell == left
    requires head.ref in after && head.ref.level == l && head.ref.pos == |level.heads| && head.ref.leaf == (l == 0)
    requires after[head.ref].cell == right && |parents| == |level.heads| + 1
    requires forall i | 0 <= i < |level.heads| ::
              level.heads[i].ref in after && parents[i] == after[level.heads[i].ref].parent
    requires parents[|level.heads|] == after[head.ref].parent
    ensures Agrees(l, Level(level.heads + [head], level.cells[|level.cells| - 1 := left] + [right], parents), after)
  {
  }

  function Refs<V>(heads: seq<Head<V>>): seq<Node<V>> {
    seq(|heads|, i requires 0 <= i < |heads| => heads[i].ref)
  }

  /** The heap after a split agrees with the levels after it. */
  lemma SplitAgrees<V>(bf: nat, levels: seq<Level<V>>, k: nat, h: map<Node<V>, Image<V>>, after: map<Node<V>, Image<V>>,
                       parent: Node<V>, right: Node<V>)
    requires 1 <= k < |levels| && Splittable(bf, levels, k)
    requires forall l | 0 <= l < |levels| :: Agrees(l, levels[l], h)
    requires parent == Last(levels[k].heads).ref && right !in h && right in after
    requires right.level == k && right.pos == |levels[k].heads| && !right.leaf
    requires
      var from := RightHead(bf, levels, k, right).first;
      var cell, mid := Last(levels[k].cells), bf / 2;
      var child := Last(levels[k - 1].heads);
      && from <= |levels[k - 1].heads|
      && (forall x | x in h ::
            && x in after
            && after[x].cell == (if x == parent then LeftHalf(cell, mid) else h[x].cell)
            && (!(x.level == k - 1 && x.pos >= from) ==> after[x].parent == h[x].parent))
      && (forall x | x in Refs(levels[k - 1].heads[from..]) :: x in after && after[x].parent == right)
      && after[right].cell == WithChild(RightHalf(cell, mid), child.minKey, child.ref)
      && after[right].parent == Last(levels[k].parents)
    ensures
      var levels' := SplitLast(bf, levels, k, right, levels[k].parents + [Last(levels[k].parents)]);
      forall l | 0 <= l < |levels| :: Agrees(l, levels'[l], after)
  {
    hide LeftHalf, RightHalf, WithChild;
    var up, down := levels[k], levels[k - 1];
    var from := RightHead(bf, levels, k, right).first;
    var levels' := SplitLast(bf, levels, k, right, up.parents + [Last(up.parents)]);
    forall l | 0 <= l < |levels| ensures Agrees(l, levels'[l], after) {
      assert Agrees(l, levels[l], h);
      if l == k {
        LevelSplit(k, up, h, after, levels'[k].cells[|up.heads| - 1], Last(levels'[k].heads), Last(levels'[k].cells),
                   levels'[k].parents);
      } else if l == k - 1 {
        forall i | from <= i < |down.heads|
          ensures down.heads[i].ref in after && after[down.heads[i].ref].parent == right
        {
          assert Refs(down.heads[from..])[i - from] == down.heads[i].ref;
        }
        LevelAdopted(l, down, h, after, from, right);
      } else {
        LevelStays(l, levels[l], h, after);
      }
    }
  }

  lemma Reparented<V>(levels: seq<Level<V>>, h: map<Node<V>, Image<V>>, after: map<Node<V>, Image<V>>, root: Node<V>,
                      newRoot: Node<V>)
    requires |levels| > 0 && forall l | 0 <= l < |levels| :: Agrees(l, levels[l], h)
    requires |Last(levels).heads| == 1 && root == Last(levels).heads[0].ref
    requires forall x | x in h :: x in after && after[x] == if x == root then h[x].(parent := newRoot) else h[x]
    ensures
      var top := |levels| - 1;
      var levels' := levels[top := levels[top].(parents := [newRoot])];
      forall l | 0 <= l < |levels| :: Agrees(l, levels'[l], after)
  {
    forall l | 0 <= l < |levels| - 1 ensures Agrees(l, levels[l], after) {
      LevelStays(l, levels[l], h, after);
    }
    assert Agrees(|levels| - 1, levels[|levels| - 1], h);
  }

  /** A level on top of levels the heap agrees with. */
  lemma Crowned<V>(levels: seq<Level<V>>, h: map<Node<V>, Image<V>>, after: map<Node<V>, Image<V>>, top: Level<V>)
    requires forall l | 0 <= l < |levels| :: Agrees(l, levels[l], h)
    requires forall x | x in h :: x in after && after[x] == h[x]
    requires |levels| > 0 && Agrees(|levels|, top, after)
    ensures forall l | 0 <= l <= |levels| :: Agrees(l, (levels + [top])[l], after)
  {
    forall l | 0 <= l < |levels| ensures Agrees(l, levels[l], after) {
      LevelStays(l, levels[l], h, after);
    }
  }

  /** The heap after a root split agrees with the levels after it. */
  lemma SplitTopAgrees<V>(bf: nat, levels: seq<Level<V>>, right: Node<V>, root: Node<V>,
                          h: map<Node<V>, Image<V>>, after: map<Node<V>, Image<V>>)
    requires |levels| > 1 && Splittable(bf, levels, |levels| - 1) && |Last(levels).heads| == 1
    requires
      var k := |levels| - 1;
      var levels' := levels[k := levels[k].(parents := [root])];
      forall l | 0 <= l < |levels| :: Agrees(l, SplitLast(bf, levels', k, right, [root] + [root])[l], h)
    requires forall x | x in h :: x in after && after[x] == h[x]
    requires root.level == |levels| && root.pos == 0 && !root.leaf && root in after
    requires
      var k := |levels| - 1;
      var left, key := Last(levels[k].heads).ref, RightHead(bf, levels, k, right).minKey;
      after[root] == Image(RootLevel(bf, root, left, key, right).cells[0], null)
    ensures forall l | 0 <= l <= |levels| :: Agrees(l, SplitTop(bf, levels, right, root)[l], after)
  {
    hide LeftHalf, RightHalf, WithChild;
    var k := |levels| - 1;
    var levels' := levels[k := levels[k].(parents := [root])];
    var split := SplitLast(bf, levels, k, right, [root, root]);
    var other := SplitLast(bf, levels', k, right, [root] + [root]);
    assert [root] + [root] == [root, root];
    assert levels'[k].heads == levels[k].heads && levels'[k].cells == levels[k].cells
           && levels'[k - 1] == levels[k - 1];
    assert split[k] == other[k] && split[k - 1] == other[k - 1];
    assert split == other;
    Crowned(split, h, after, RootLevel(bf, root, Last(levels[k].heads).ref, RightHead(bf, levels, k, right).minKey,
            right));
  }

  /** The heap after a node took a new last child. */
  lemma LinkAgrees<V>(levels: seq<Level<V>>, k: nat, h: map<Node<V>, Image<V>>, after: map<Node<V>, Image<V>>)
    requires 1 <= k < |levels| && forall l | 0 <= l < |levels| :: Agrees(l, levels[l], h)
    requires levels[k].Sized() && levels[k - 1].Sized()
    requires Last(levels[k].cells).size + 1 < |Last(levels[k].cells).data|
    requires
      var last, child := Last(levels[k].heads).ref, Last(levels[k - 1].heads);
      forall x | x in h :: x in after && after[x] ==
        if x == last then h[x].(cell := WithChild(Last(levels[k].cells), child.minKey, child.ref)) else h[x]
    ensures forall l | 0 <= l < |levels| :: Agrees(l, LinkLast(levels, k)[l], after)
  {
    hide WithChild;
    forall l | 0 <= l < |levels| && l != k ensures Agrees(l, levels[l], after) {
      assert Agrees(k, levels[k], h);
      LevelStays(l, levels[l], h, after);
    }
    assert Agrees(k, levels[k], h);
  }

  /** The heap after a store in the last leaf. */
  lemma StoreAgrees<V>(levels: seq<Level<V>>, h: map<Node<V>, Image<V>>, after: map<Node<V>, Image<V>>, pair: Pair<V>)
    requires |levels| > 0 && forall l | 0 <= l < |levels| :: Agrees(l, levels[l], h)
    requires levels[0].Sized() && Last(levels[0].cells).size < |Last(levels[0].cells).data|
    requires
      var last := Last(levels[0].heads).ref;
      forall x | x in h ::
          x in after && after[x] == if x == last then h[x].(cell := Stored(Last(levels[0].cells), pair)) else h[x]
    ensures forall l | 0 <= l < |levels| :: Agrees(l, StoreLast(levels, pair)[l], after)
  {
    hide Stored;
    forall l | 0 < l < |levels| ensures Agrees(l, levels[l], after) {
      LevelStays(l, levels[l], h, after);
    }
    assert Agrees(0, levels[0], h);
  }

  /** The heap after a new last leaf is hung on the chain. */
  lemma ChainAgrees<V>(bf: nat, levels: seq<Level<V>>, h: map<Node<V>, Image<V>>, after: map<Node<V>, Image<V>>,
                       pos: nat, pair: Pair<V>, leaf: Node<V>, parents: seq<Node?<V>>)
    requires bf > 0 && |levels| > 0 && forall l | 0 <= l < |levels| :: Agrees(l, levels[l], h)
    requires levels[0].Sized() && forall i | 0 <= i < |levels[0].heads| :: levels[0].heads[i].ref in h
    requires Last(levels[0].cells).size < |Last(levels[0].cells).data|
    requires leaf in after && leaf.level == 0 && leaf.pos == |levels[0].heads| && leaf.leaf
    requires
      var last := Last(levels[0].heads).ref;
      && (forall x | x in h ::
            && x in after
            && after[x].cell == (if x == last then Chained(Last(levels[0].cells), leaf) else h[x].cell)
            && (x.level > 0 ==> after[x].parent == h[x].parent))
      && after[leaf].cell == LeafCell(bf, pair)
      && |parents| == |levels[0].heads| + 1
      && (forall i | 0 <= i < |levels[0].heads| :: parents[i] == after[levels[0].heads[i].ref].parent)
      && parents[|levels[0].heads|] == after[leaf].parent
    ensures forall l | 0 <= l < |levels| :: Agrees(l, ChainLeaf(bf, levels, pos, pair, leaf, parents)[l], after)
  {
    hide Chained, LeafCell;
    var level := levels[0];
    LevelSplit(0, level, h, after, Chained(Last(level.cells), leaf), Head(leaf, pos, pair.key), LeafCell(bf, pair),
               parents);
    forall l | 0 < l < |levels| ensures Agrees(l, levels[l], after) {
      LevelStays(l, levels[l], h, after);
    }
  }

  /** The heap after the first leaf grew into two leaves under a root. */
  lemma GrowRootAgrees<V>(bf: nat, levels: seq<Level<V>>, pos: nat, pair: Pair<V>, leaf: Node<V>, root: Node<V>,
                          h: map<Node<V>, Image<V>>, after: map<Node<V>, Image<V>>)
    requires bf >= 3 && |levels| == 1 && levels[0].Sized() && |levels[0].heads| == 1
    requires Last(levels[0].cells).size < |Last(levels[0].cells).data|
    requires
      var levels' := levels[0 := levels[0].(parents := [root])];
      forall l | 0 <= l < |levels| :: Agrees(l, ChainLeaf(bf, levels', pos, pair, leaf, [root] + [root])[l], h)
    requires forall x | x in h :: x in after && after[x] == h[x]
    requires root.level == 1 && root.pos == 0 && !root.leaf && root in after
    requires after[root] == Image(RootLevel(bf, root, levels[0].heads[0].ref, pair.key, leaf).cells[0], null)
    ensures forall l | 0 <= l <= |levels| :: Agrees(l, GrowRoot(bf, levels, pos, pair, leaf, root)[l], after)
  {
    hide Chained, LeafCell;
    var levels' := levels[0 := levels[0].(parents := [root])];
    var chain := ChainLeaf(bf, levels, pos, pair, leaf, [root, root]);
    assert [root] + [root] == [root, root];
    assert chain == ChainLeaf(bf, levels', pos, pair, leaf, [root] + [root]);
    Crowned(chain, h, after, RootLevel(bf, root, levels[0].heads[0].ref, pair.key, leaf));
  }
}
