/**
  The monotonic B+tree of src/mbptree.c on the heap: nodes updated in place, split upward along
  their parent pointers, searched downward along their children.
*/
module MbpTree {
  import opened MbpTreeShape
  import opened MbpTreeHeap
  import opened MbpTreeFacts

  datatype Rc = Ok | ELIDXNM | ELIDXLK

  class Tree<V> {
    const branchFactor: nat
    var exclusiveLock: nat
    var sharedLock: nat
    var root: Node<V>
    var lastLeaf: Node<V>
    ghost var levels: seq<Level<V>>
    ghost var nodes: set<Node<V>>
    ghost var footprint: set<object>
    ghost var contents: seq<Pair<V>>

    /** The heap holds exactly what `levels` says. */
    ghost predicate Synced()
      reads this, footprint
    {
      && |levels| > 0 && this !in footprint
      && Owned(nodes, footprint)
      && (forall l | 0 <= l < |levels| :: Agrees(l, levels[l], Snapshot(nodes)))
    }

    ghost predicate Valid()
      reads this, footprint
    {
      && Synced()
      && Pending(branchFactor, levels, contents, 0)
      && root == Last(levels).heads[0].ref
      && lastLeaf == Last(levels[0].heads).ref
    }

    constructor (branchFactor: nat)
      requires branchFactor >= 3
      ensures Valid() && contents == [] && fresh(footprint)
      ensures exclusiveLock == 0 && sharedLock == 0
      ensures this.branchFactor == branchFactor
    {
      this.branchFactor := branchFactor;
      exclusiveLock, sharedLock := 0, 0;
      var node := new Node(branchFactor, true, null, 0, 0);
      root, lastLeaf := node, node;
      levels, nodes, contents := [Level([Head(node, 0, 0)], [Cell(0, Blank(branchFactor))], [null])], {node}, [];
      footprint := {node, node.data};
    }

    predicate NodeFull(node: Node<V>)
      reads node
    {
      node.size >= branchFactor - 1
    }

    /** The first loop of mbptree_move_half_node: the keys right of the middle one go to `rhs`. */
    method MoveKeys(lhs: Node<V>, rhs: Node<V>, mid: nat)
      requires lhs != rhs && lhs.data != rhs.data && mid < lhs.size
      requires rhs.size == 0 && lhs.size < lhs.data.Length == rhs.data.Length
      modifies lhs.data, rhs`size, rhs.data
      ensures rhs.size == lhs.size - (mid + 1)
      ensures forall j | 0 <= j < lhs.data.Length ::
          lhs.data[j] == (if mid < j < lhs.size then old(lhs.data[j]).(key := 0) else old(lhs.data[j]))
      ensures forall j | 0 <= j < rhs.data.Length ::
          rhs.data[j] ==
              (if j < rhs.size then old(rhs.data[j]).(key := old(lhs.data[mid + 1 + j].key)) else old(rhs.data[j]))
    {
      var keyIdx := mid + 1;
      while keyIdx < lhs.size
        invariant mid + 1 <= keyIdx <= lhs.size && rhs.size == keyIdx - (mid + 1)
        invariant forall j | 0 <= j < lhs.data.Length ::
            lhs.data[j] == (if mid < j < keyIdx then old(lhs.data[j]).(key := 0) else old(lhs.data[j]))
        invariant forall j | 0 <= j < rhs.data.Length ::
            rhs.data[j] ==
                (if j < rhs.size then old(rhs.data[j]).(key := old(lhs.data[mid + 1 + j].key)) else old(rhs.data[j]))
      {
        rhs.data[rhs.size] := rhs.data[rhs.size].(key := lhs.data[keyIdx].key);
        rhs.size := rhs.size + 1;
        lhs.data[keyIdx] := lhs.data[keyIdx].(key := 0);
        keyIdx := keyIdx + 1;
      }
    }

    /** The second loop of mbptree_move_half_node: the children right of the middle one go to `rhs`. */
    method MoveChildren(lhs: Node<V>, rhs: Node<V>, mid: nat, ghost moved: seq<Node<V>>)
      requires lhs != rhs && lhs.data != rhs.data && mid < lhs.size < lhs.data.Length == rhs.data.Length
      requires |moved| == lhs.size - mid
      requires forall j | 0 <= j < |moved| :: lhs.data[mid + 1 + j].value == Addr(moved[j])
      modifies lhs.data, rhs.data, moved`parent
      ensures forall j | 0 <= j < lhs.data.Length ::
          lhs.data[j] == (if mid < j <= lhs.size then old(lhs.data[j]).(value := Addr(null)) else old(lhs.data[j]))
      ensures forall j | 0 <= j < rhs.data.Length ::
          rhs.data[j] == (if j < |moved| then old(rhs.data[j]).(value := Addr(moved[j])) else old(rhs.data[j]))
      ensures forall j | 0 <= j < |moved| :: moved[j].parent == rhs
    {
      var valueIdx, j := mid + 1, 0;
      while valueIdx <= lhs.size
        invariant mid + 1 <= valueIdx <= lhs.size + 1 && j == valueIdx - (mid + 1)
        invariant forall i | 0 <= i < lhs.data.Length ::
            lhs.data[i] == (if mid < i < valueIdx then old(lhs.data[i]).(value := Addr(null)) else old(lhs.data[i]))
        invariant forall i | 0 <= i < rhs.data.Length ::
            rhs.data[i] == (if i < j then old(rhs.data[i]).(value := Addr(moved[i])) else old(rhs.data[i]))
        invariant forall i | 0 <= i < j :: moved[i].parent == rhs
      {
        assert lhs.data[valueIdx].value == Addr(moved[j]);
        rhs.data[j] := rhs.data[j].(value := lhs.data[valueIdx].value);
        lhs.data[valueIdx] := lhs.data[valueIdx].(value := Addr(null));
        var movedNode := rhs.data[j].value.node;
        movedNode.parent := rhs;
        valueIdx, j := valueIdx + 1, j + 1;
      }
    }

    method MoveHalfNode(lhs: Node<V>, rhs: Node<V>, ghost moved: seq<Node<V>>) returns (midKey: Key)
      requires lhs.parent == rhs.parent && !lhs.leaf && !rhs.leaf
      requires lhs != rhs && lhs.data != rhs.data && lhs.data.Length == rhs.data.Length == branchFactor
      requires branchFactor / 2 < lhs.size < branchFactor
      requires CellOf(rhs) == Cell(0, Blank(branchFactor))
      requires |moved| == lhs.size - branchFactor / 2
      requires forall j | 0 <= j < |moved| :: lhs.data[branchFactor / 2 + 1 + j].value == Addr(moved[j])
      modifies lhs`size, lhs.data, rhs`size, rhs.data, moved`parent
      ensures midKey == old(lhs.data[branchFactor / 2].key)
      ensures CellOf(lhs) == LeftHalf(old(CellOf(lhs)), branchFactor / 2)
      ensures CellOf(rhs) == RightHalf(old(CellOf(lhs)), branchFactor / 2)
      ensures forall j | 0 <= j < |moved| :: moved[j].parent == rhs
    {
      var mid := Midpoint(branchFactor);
      midKey := lhs.data[mid].key;
      MoveKeys(lhs, rhs, mid);
      MoveChildren(lhs, rhs, mid, moved);
      lhs.size := mid;
    }

    /** `Pending` on the heap, with the root in place; the last leaf is set only once the append is done. */
    ghost predicate Climbing(k: nat)
      reads this, footprint
    {
      && Synced()
      && Pending(branchFactor, levels, contents, k)
      && root == Last(levels).heads[0].ref
    }

    /** The stores that hang `child` on `parent`, which has room. */
    method AddChild(parent: Node<V>, key: Key, child: Node<V>, ghost k: nat)
      requires 1 <= k < |levels| && Climbing(k)
      requires parent == Last(levels[k].heads).ref && parent.size < branchFactor - 1
      requires child == Last(levels[k - 1].heads).ref && key == Last(levels[k - 1].heads).minKey
      modifies this`levels, parent, parent.data
      ensures Climbing(0)
      ensures levels[0].heads == old(levels[0].heads) && levels[0].cells == old(levels[0].cells)
    {
      hide Pending, Agrees;
      LastSynced(k);
      LastSynced(k - 1);
      LinkLastKeepsTree(branchFactor, levels, contents, k);
      ghost var was := Snapshot(nodes);
      parent.data[parent.size] := parent.data[parent.size].(key := key);
      parent.size := parent.size + 1;
      parent.data[parent.size] := parent.data[parent.size].(value := Addr(child));
      LinkAgrees(levels, k, was, Snapshot(nodes));
      levels := LinkLast(levels, k);
    }

    /** Moves the right half of `parent` to `right`, then hangs `child` there. */
    method FillRight(parent: Node<V>, right: Node<V>, key: Key, child: Node<V>, ghost moved: seq<Node<V>>)
      returns (midKey: Key)
      requires branchFactor >= 3 && parent.parent == right.parent && !parent.leaf && !right.leaf
      requires parent != right && parent.data != right.data && parent.data.Length == right.data.Length == branchFactor
      requires parent.size == branchFactor - 1 && CellOf(right) == Cell(0, Blank(branchFactor))
      requires |moved| == branchFactor - branchFactor / 2 && child == Last(moved)
      requires forall j | 0 <= j < |moved| - 1 :: parent.data[branchFactor / 2 + 1 + j].value == Addr(moved[j])
      modifies parent`size, parent.data, right`size, right.data, moved`parent
      ensures midKey == old(parent.data[branchFactor / 2].key)
      ensures CellOf(parent) == LeftHalf(old(CellOf(parent)), branchFactor / 2)
      ensures CellOf(right) == WithChild(RightHalf(old(CellOf(parent)), branchFactor / 2), key, child)
      ensures forall j | 0 <= j < |moved| :: moved[j].parent == right
    {
      midKey := MoveHalfNode(parent, right, moved[..|moved| - 1]);
      assert forall j | 0 <= j < |moved| - 1 :: moved[..|moved| - 1][j] == moved[j];
      right.data[right.size] := right.data[right.size].(key := key);
      right.size := right.size + 1;
      right.data[right.size] := right.data[right.size].(value := Addr(child));
      child.parent := right;
    }

    /** What both splits share: a new node beside `parent` takes its right half and the pending child. */
    method SplitLastNode(parent: Node<V>, key: Key, child: Node<V>, ghost k: nat, ghost down: seq<Head<V>>,
                         ghost base: nat, ghost pos: nat, ghost family: set<Node<V>>)
      returns (right: Node<V>, midKey: Key)
      requires branchFactor >= 3 && !parent.leaf && k > 0
      requires parent.size == branchFactor - 1 && parent.data.Length == branchFactor
      requires base + branchFactor + 1 == |down| && child == Last(down).ref
      requires forall q | 0 <= q < branchFactor :: parent.data[q].value == Addr(down[base + q].ref)
      requires forall i | 0 <= i < |down| :: down[i].ref in family && down[i].ref.level == k - 1 && down[i].ref.pos == i
      modifies parent`size, parent.data
      modifies (set x | x in family && x.level == k - 1 && x.pos > base + branchFactor / 2)`parent
      ensures fresh(right) && fresh(right.data) && right.level == k && right.pos == pos && !right.leaf
      ensures right !in family && forall x | x in family :: x.data != right.data
      ensures right.parent == old(parent.parent)
      ensures midKey == old(parent.data[branchFactor / 2].key)
      ensures CellOf(parent) == LeftHalf(old(CellOf(parent)), branchFactor / 2)
      ensures CellOf(right) == WithChild(RightHalf(old(CellOf(parent)), branchFactor / 2), key, child)
      ensures forall i | base + branchFactor / 2 < i < |down| :: down[i].ref.parent == right
    {
      hide LeftHalf, RightHalf;
      right := new Node(branchFactor, false, parent.parent, k, pos);
      ghost var from := base + branchFactor / 2 + 1;
      ghost var moved := Refs(down[from..]);
      forall j | 0 <= j < |moved| - 1
        ensures parent.data[branchFactor / 2 + 1 + j].value == Addr(moved[j])
      {
        assert parent.data[..][branchFactor / 2 + 1 + j].value == Addr(moved[j]);
      }
      midKey := FillRight(parent, right, key, child, moved);
      forall i | from <= i < |down| ensures down[i].ref.parent == right {
        assert moved[i - from] == down[i].ref;
      }
    }

    /** What the heap holds for the last node of a level. */
    lemma LastSynced(l: nat)
      requires l < |levels| && Synced()
      ensures levels[l].Sized()
      ensures
        var x := Last(levels[l].heads).ref;
        && x in nodes && x.level == l && x.pos == |levels[l].heads| - 1 && x.leaf == (l == 0)
        && CellOf(x) == Last(levels[l].cells)
        && x.parent == Last(levels[l].parents)
        && x in footprint && x.data in footprint
    {
    }

    /** `SplitLastNode` applied to the last node of level `k`: the heap agrees with the levels after it. */
    method Cut(parent: Node<V>, key: Key, child: Node<V>, ghost k: nat)
      returns (right: Node<V>, midKey: Key)
      requires Synced() && Splittable(branchFactor, levels, k) && SplitMoves(branchFactor, levels, k)
      requires parent == Last(levels[k].heads).ref
      requires child == Last(levels[k - 1].heads).ref && key == Last(levels[k - 1].heads).minKey
      modifies footprint
      ensures fresh(right) && fresh(right.data) && right !in nodes
      ensures right.level == k && right.pos == |levels[k].heads| && !right.leaf
      ensures midKey == RightHead(branchFactor, levels, k, right).minKey
      ensures
        var after := SplitLast(branchFactor, levels, k, right, levels[k].parents + [Last(levels[k].parents)]);
        forall l | 0 <= l < |levels| :: Agrees(l, after[l], Snapshot(nodes + {right}))
    {
      hide SplitLast, LeftHalf, RightHalf, WithChild, Agrees;
      LastSynced(k);
      LastSynced(k - 1);
      RefsSynced(k - 1);
      ghost var was := Snapshot(nodes);
      right, midKey := SplitLastNode(parent, key, child, k, levels[k - 1].heads, Last(levels[k].heads).first,
                                     |levels[k].heads|, nodes);
      SplitAgrees(branchFactor, levels, k, was, Snapshot(nodes + {right}), parent, right);
    }

    /** The first part of mbptree_split_node: a new right half, not yet known to the level above. */
    method SplitBelowRoot(parent: Node<V>, key: Key, child: Node<V>, ghost k: nat)
      returns (newParent: Node<V>, midKey: Key)
      requires 1 <= k < |levels| - 1 && Climbing(k)
      requires parent == Last(levels[k].heads).ref && parent.size == branchFactor - 1
      requires child == Last(levels[k - 1].heads).ref && key == Last(levels[k - 1].heads).minKey
      modifies this`levels, this`nodes, this`footprint, footprint
      ensures |levels| == old(|levels|) && Climbing(k + 1)
      ensures fresh(footprint - old(footprint))
      ensures newParent == Last(levels[k].heads).ref && midKey == Last(levels[k].heads).minKey
      ensures levels[0].heads == old(levels[0].heads) && levels[0].cells == old(levels[0].cells)
    {
      hide Pending, Owned, Snapshot, SplitLast, LeftHalf, RightHalf, WithChild, Agrees;
      LastSynced(k);
      LastSynced(k - 1);
      PendingMoves(branchFactor, levels, contents, k);
      newParent, midKey := Cut(parent, key, child, k);
      SplitKeepsTree(branchFactor, levels, contents, k, newParent);
      levels := SplitLast(branchFactor, levels, k, newParent, levels[k].parents + [Last(levels[k].parents)]);
      OwnedMore(nodes, footprint, newParent);
      nodes, footprint := nodes + {newParent}, footprint + {newParent, newParent.data};
    }

    /** A new root above the old one, still without children. */
    method RaiseRoot(ghost k: nat) returns (newRoot: Node<V>)
      requires k == |levels| - 1 && Climbing(k)
      modifies this`levels, root`parent
      ensures fresh(newRoot) && fresh(newRoot.data) && newRoot !in nodes
      ensures newRoot.level == k + 1 && newRoot.pos == 0 && !newRoot.leaf && newRoot.parent == null
      ensures newRoot.data.Length == branchFactor && CellOf(newRoot) == Cell(0, Blank(branchFactor))
      ensures levels == old(levels)[k := old(levels)[k].(parents := [newRoot])]
      ensures Synced() && root.parent == newRoot
    {
      hide Pending, Agrees;
      TopIsRoot(branchFactor, levels, contents, k);
      LastSynced(k);
      ghost var was, before := Snapshot(nodes), levels;
      newRoot := new Node(branchFactor, false, null, k + 1, 0);
      root.parent := newRoot;
      levels := levels[k := levels[k].(parents := [newRoot])];
      Reparented(before, was, Snapshot(nodes), root, newRoot);
    }

    /** The stores of mbptree_split_root up to the new root pointer. */
    method GrowAbove(parent: Node<V>, key: Key, child: Node<V>, ghost k: nat)
      returns (newRoot: Node<V>, newNode: Node<V>)
      requires 1 <= k == |levels| - 1 && Climbing(k)
      requires parent == root && parent.size == branchFactor - 1
      requires child == Last(levels[k - 1].heads).ref && key == Last(levels[k - 1].heads).minKey
      modifies this`levels, footprint
      ensures fresh(newRoot) && fresh(newRoot.data) && fresh(newNode) && fresh(newNode.data)
              && newRoot.data != newNode.data
      ensures newRoot.level == k + 1 && newRoot.pos == 0 && !newRoot.leaf
      ensures newNode.level == k && newNode.pos == 1 && !newNode.leaf
      ensures Splittable(branchFactor, old(levels), k)
      ensures forall l | 0 <= l <= |old(levels)| ::
          Agrees(l, SplitTop(branchFactor, old(levels), newNode, newRoot)[l], Snapshot(nodes + {newNode} + {newRoot}))
    {
      hide Pending, SplitLast, SplitTop, LeftHalf, RightHalf, WithChild, Agrees;
      TopIsRoot(branchFactor, levels, contents, k);
      LastSynced(k);
      LastSynced(k - 1);
      PendingMoves(branchFactor, levels, contents, k);
      ghost var before := levels;
      newRoot := RaiseRoot(k);
      var midKey;
      newNode, midKey := Cut(parent, key, child, k);
      ghost var was := Snapshot(nodes + {newNode});
      FillRoot(newRoot, parent, midKey, newNode);
      SplitTopAgrees(branchFactor, before, newNode, newRoot, was, Snapshot(nodes + {newNode} + {newRoot}));
    }

    method SplitRoot(parent: Node<V>, key: Key, child: Node<V>, ghost k: nat) returns (newRoot: Node<V>)
      requires 1 <= k == |levels| - 1 && Climbing(k)
      requires parent == root && parent.size == branchFactor - 1
      requires child == Last(levels[k - 1].heads).ref && key == Last(levels[k - 1].heads).minKey
      modifies this`root, this`levels, this`nodes, this`footprint, footprint
      ensures Climbing(0) && newRoot == root && fresh(footprint - old(footprint))
      ensures levels[0].heads == old(levels[0].heads) && levels[0].cells == old(levels[0].cells)
    {
      hide Pending, Owned, Snapshot, SplitTop, Agrees;
      TopIsRoot(branchFactor, levels, contents, k);
      LastSynced(k);
      ghost var before := levels;
      var newNode;
      newRoot, newNode := GrowAbove(parent, key, child, k);
      SplitTopKeepsTree(branchFactor, before, contents, newNode, newRoot);
      root := newRoot;
      levels := SplitTop(branchFactor, before, newNode, newRoot);
      OwnedTwo(nodes, footprint, newNode, newRoot);
      nodes, footprint := nodes + {newNode} + {newRoot}, footprint + {newNode, newNode.data, newRoot, newRoot.data};
    }

    /** The stores that give a new root its two children. */
    method FillRoot(newRoot: Node<V>, left: Node<V>, key: Key, right: Node<V>)
      requires branchFactor >= 3 && newRoot.data.Length == branchFactor
               && CellOf(newRoot) == Cell(0, Blank(branchFactor))
      modifies newRoot`size, newRoot.data
      ensures CellOf(newRoot) == RootLevel(branchFactor, newRoot, left, key, right).cells[0]
    {
      newRoot.data[newRoot.size] := newRoot.data[newRoot.size].(value := Addr(left));
      newRoot.data[newRoot.size] := newRoot.data[newRoot.size].(key := key);
      newRoot.size := newRoot.size + 1;
      newRoot.data[newRoot.size] := newRoot.data[newRoot.size].(value := Addr(right));
    }

    /** Hangs the pending node on the last node of level `k`, splitting upward as long as it is full. */
    method AppendNode(key: Key, node: Node<V>, ghost k: nat) returns (newRoot: Node<V>)
      requires 1 <= k < |levels| && Climbing(k)
      requires node == Last(levels[k - 1].heads).ref && key == Last(levels[k - 1].heads).minKey
      modifies this`root, this`levels, this`nodes, this`footprint, footprint
      ensures Climbing(0) && newRoot == root && fresh(footprint - old(footprint))
      ensures levels[0].heads == old(levels[0].heads) && levels[0].cells == old(levels[0].cells)
      decreases |levels| - k, 1
    {
      hide Pending, Agrees;
      LastSynced(k);
      LastSynced(k - 1);
      PendingParent(branchFactor, levels, contents, k);
      RootAlone(branchFactor, levels, contents, k);
      var parent := node.parent;
      if !NodeFull(parent) {
        AddChild(parent, key, node, k);
        return root;
      }
      if parent.parent == null {
        newRoot := SplitRoot(parent, key, node, k);
      } else {
        newRoot := SplitNode(parent, key, node, k);
      }
    }

    method SplitNode(parent: Node<V>, key: Key, child: Node<V>, ghost k: nat) returns (newRoot: Node<V>)
      requires 1 <= k < |levels| - 1 && Climbing(k)
      requires parent == Last(levels[k].heads).ref && parent.size == branchFactor - 1
      requires child == Last(levels[k - 1].heads).ref && key == Last(levels[k - 1].heads).minKey
      modifies this`root, this`levels, this`nodes, this`footprint, footprint
      ensures Climbing(0) && newRoot == root && fresh(footprint - old(footprint))
      ensures levels[0].heads == old(levels[0].heads) && levels[0].cells == old(levels[0].cells)
      decreases |levels| - k, 0
    {
      hide Pending, Agrees;
      var newParent, midKey := SplitBelowRoot(parent, key, child, k);
      newRoot := AppendNode(midKey, newParent, k + 1);
    }

    /** The stores of an append that finds room in the last leaf. */
    method StoreLeaf(leaf: Node<V>, key: Key, value: V)
      requires Valid() && leaf == lastLeaf && leaf.size < branchFactor - 1
      requires Above(contents, key)
      modifies this`levels, this`contents, leaf`size, leaf.data
      ensures Valid() && contents == old(contents) + [Pair(key, value)]
      ensures levels[0].heads == old(levels[0].heads)
    {
      hide Pending, Agrees;
      LastSynced(0);
      LastLeafRoom(branchFactor, levels, contents);
      ghost var was := Snapshot(nodes);
      StoreKeepsTree(branchFactor, levels, contents, Pair(key, value));
      leaf.data[leaf.size] := Data(key, User(value));
      leaf.size := leaf.size + 1;
      StoreAgrees(levels, was, Snapshot(nodes), Pair(key, value));
      levels := StoreLast(levels, Pair(key, value));
      contents := contents + [Pair(key, value)];
    }

    /** The stores that make a new leaf with its first pair and hang it on the full last leaf. */
    method NewLeaf(leaf: Node<V>, key: Key, value: V, ghost pos: nat) returns (newLeaf: Node<V>)
      requires branchFactor >= 3 && leaf.size < leaf.data.Length == branchFactor
      modifies leaf.data
      ensures fresh(newLeaf) && fresh(newLeaf.data) && newLeaf.level == 0 && newLeaf.pos == pos && newLeaf.leaf
      ensures newLeaf.parent == leaf.parent
      ensures newLeaf.size == 1 && newLeaf.data.Length == branchFactor && newLeaf.data[0].key == key
      ensures CellOf(newLeaf) == LeafCell(branchFactor, Pair(key, value))
      ensures CellOf(leaf) == Chained(old(CellOf(leaf)), newLeaf)
    {
      newLeaf := new Node(branchFactor, true, leaf.parent, 0, pos);
      leaf.data[leaf.size] := leaf.data[leaf.size].(value := Addr(newLeaf));
      newLeaf.data[newLeaf.size] := Data(key, User(value));
      newLeaf.size := newLeaf.size + 1;
    }

    /** `NewLeaf` applied to the last leaf: the heap agrees with the levels after it. */
    method GrowLeaf(leaf: Node<V>, key: Key, value: V, ghost parents: seq<Node?<V>>) returns (newLeaf: Node<V>)
      requires Synced() && branchFactor >= 3 && leaf == Last(levels[0].heads).ref
      requires leaf.size < leaf.data.Length == branchFactor
      requires levels[0].Sized() && parents == levels[0].parents + [leaf.parent]
      modifies leaf.data
      ensures fresh(newLeaf) && fresh(newLeaf.data) && newLeaf !in nodes
      ensures newLeaf.level == 0 && newLeaf.pos == |levels[0].heads| && newLeaf.leaf && newLeaf.parent == leaf.parent
      ensures newLeaf.size == 1 && newLeaf.data.Length == branchFactor && newLeaf.data[0].key == key
      ensures Last(levels[0].cells).size < |Last(levels[0].cells).data|
      ensures
        var after := ChainLeaf(branchFactor, levels, |contents|, Pair(key, value), newLeaf, parents);
        forall l | 0 <= l < |levels| :: Agrees(l, after[l], Snapshot(nodes + {newLeaf}))
    {
      hide Chained, LeafCell, Agrees;
      LastSynced(0);
      RefsSynced(0);
      ghost var was := Snapshot(nodes);
      newLeaf := NewLeaf(leaf, key, value, |levels[0].heads|);
      ChainAgrees(branchFactor, levels, was, Snapshot(nodes + {newLeaf}), |contents|, Pair(key, value), newLeaf,
                  parents);
    }

    /** A new leaf below an existing parent: the append of its address to the parent is pending. */
    method HangLeaf(leaf: Node<V>, key: Key, value: V) returns (newLeaf: Node<V>)
      requires Valid() && leaf == lastLeaf && leaf.size == branchFactor - 1 && leaf.parent != null
      requires Above(contents, key)
      modifies this`levels, this`contents, this`nodes, this`footprint, leaf.data
      ensures 1 < |levels| && Climbing(1) && fresh(footprint - old(footprint))
      ensures contents == old(contents) + [Pair(key, value)]
      ensures newLeaf == Last(levels[0].heads).ref && key == Last(levels[0].heads).minKey
      ensures newLeaf.parent == leaf.parent && newLeaf.size == 1 && newLeaf.data.Length == branchFactor
      ensures newLeaf.data[0].key == key
      ensures levels[0].heads[..|levels[0].heads| - 1] == old(levels[0].heads)
    {
      hide Pending, Owned, Snapshot, Agrees;
      LastSynced(0);
      LastLeafRoom(branchFactor, levels, contents);
      RootAlone(branchFactor, levels, contents, 0);
      ghost var parents := levels[0].parents + [leaf.parent];
      newLeaf := GrowLeaf(leaf, key, value, parents);
      ChainKeepsTree(branchFactor, levels, contents, Pair(key, value), newLeaf);
      levels := ChainLeaf(branchFactor, levels, |contents|, Pair(key, value), newLeaf, parents);
      contents := contents + [Pair(key, value)];
      OwnedMore(nodes, footprint, newLeaf);
      nodes, footprint := nodes + {newLeaf}, footprint + {newLeaf, newLeaf.data};
    }

    /** The stores that put two leaves under a first root. */
    method GrowFirst(leaf: Node<V>, key: Key, value: V) returns (newRoot: Node<V>, newLeaf: Node<V>)
      requires Valid() && leaf == lastLeaf && leaf.size == branchFactor - 1 && |levels| == 1
      modifies this`levels, footprint
      ensures fresh(newRoot) && fresh(newRoot.data) && fresh(newLeaf) && fresh(newLeaf.data)
              && newRoot.data != newLeaf.data
      ensures newRoot.level == 1 && newRoot.pos == 0 && !newRoot.leaf
      ensures newLeaf.level == 0 && newLeaf.pos == 1 && newLeaf.leaf
      ensures old(levels)[0].Sized() && branchFactor >= 3
      ensures Last(old(levels)[0].cells).size < |Last(old(levels)[0].cells).data|
      ensures
        var after := GrowRoot(branchFactor, old(levels), |contents|, Pair(key, value), newLeaf, newRoot);
        forall l | 0 <= l <= 1 :: Agrees(l, after[l], Snapshot(nodes + {newLeaf} + {newRoot}))
    {
      hide Pending, ChainLeaf, Chained, LeafCell, GrowRoot, Agrees;
      TopIsRoot(branchFactor, levels, contents, 0);
      LastLeafRoom(branchFactor, levels, contents);
      LastSynced(0);
      ghost var before := levels;
      newRoot := RaiseRoot(0);
      newLeaf := GrowLeaf(leaf, key, value, levels[0].parents + [newRoot]);
      ghost var was := Snapshot(nodes + {newLeaf});
      FillRoot(newRoot, leaf, key, newLeaf);
      GrowRootAgrees(branchFactor, before, |contents|, Pair(key, value), newLeaf, newRoot,
                     was, Snapshot(nodes + {newLeaf} + {newRoot}));
    }

    /** The full last leaf is the root: mbptree_tryappend sets both roots of the tree itself. */
    method AppendFirst(leaf: Node<V>, key: Key, value: V)
      requires Valid() && leaf == lastLeaf && leaf.size == branchFactor - 1 && |levels| == 1
      requires Above(contents, key)
      modifies this`root, this`lastLeaf, this`levels, this`contents, this`nodes, this`footprint, footprint
      ensures Valid() && contents == old(contents) + [Pair(key, value)] && fresh(footprint - old(footprint))
      ensures old(levels[0].heads) <= levels[0].heads
    {
      hide Pending, Owned, Snapshot, GrowRoot, Agrees;
      TopIsRoot(branchFactor, levels, contents, 0);
      LastLeafRoom(branchFactor, levels, contents);
      LastSynced(0);
      ghost var before := levels;
      var newRoot, newLeaf := GrowFirst(leaf, key, value);
      GrowRootKeepsTree(branchFactor, before, contents, Pair(key, value), newLeaf, newRoot);
      lastLeaf := newLeaf;
      root := newRoot;
      levels := GrowRoot(branchFactor, before, |contents|, Pair(key, value), newLeaf, newRoot);
      contents := contents + [Pair(key, value)];
      OwnedTwo(nodes, footprint, newLeaf, newRoot);
      nodes, footprint := nodes + {newLeaf} + {newRoot}, footprint + {newLeaf, newLeaf.data, newRoot, newRoot.data};
    }

    /** Hangs the new last leaf on its parent, or splits the parent when that is full. */
    method AppendLeaf(newLeaf: Node<V>) returns (newRoot: Node<V>)
      requires 1 < |levels| && Climbing(1)
      requires newLeaf == Last(levels[0].heads).ref && newLeaf.size > 0 && newLeaf.data.Length > 0
      requires newLeaf.data[0].key == Last(levels[0].heads).minKey
      requires lastLeaf != newLeaf && lastLeaf.parent == newLeaf.parent
      modifies this`root, this`lastLeaf, this`levels, this`nodes, this`footprint, footprint
      ensures Valid() && newRoot == root && fresh(footprint - old(footprint))
      ensures levels[0].heads == old(levels[0].heads)
    {
      hide Pending, Agrees;
      LastSynced(0);
      LastSynced(1);
      PendingParent(branchFactor, levels, contents, 1);
      RootAlone(branchFactor, levels, contents, 1);
      newRoot := root;
      var parent := lastLeaf.parent;
      var key := newLeaf.data[0].key;
      if !NodeFull(parent) {
        AddChild(parent, key, newLeaf, 1);
      } else if parent.parent == null {
        newRoot := SplitRoot(parent, key, newLeaf, 1);
      } else {
        newRoot := SplitNode(parent, key, newLeaf, 1);
      }
      lastLeaf := newLeaf;
    }

    /**
      With the lock taken: appends a pair whose key is above all others, and refuses any other pair. Reading
      the tree from left to right always gives the accepted pairs in order.
    */
    method TryAppend(key: Key, value: V) returns (rc: Rc)
      requires Valid() && exclusiveLock == 1 && sharedLock == 0
      modifies this`root, this`lastLeaf, this`levels, this`contents, this`nodes, this`footprint, footprint
      ensures Valid() && fresh(footprint - old(footprint))
      ensures rc == if Above(old(contents), key) then Ok else ELIDXNM
      ensures rc == Ok ==> contents == old(contents) + [Pair(key, value)]
      ensures rc == ELIDXNM ==> unchanged(this) && unchanged(footprint)
      ensures old(levels[0].heads) <= levels[0].heads
    {
      hide Pending, Agrees;
      LastSynced(0);
      LastLeafRoom(branchFactor, levels, contents);
      RootAlone(branchFactor, levels, contents, 0);
      var leaf := lastLeaf;
      if leaf.size > 0 && key <= leaf.data[leaf.size - 1].key {
        return ELIDXNM;
      }
      rc := Ok;
      if !NodeFull(leaf) {
        StoreLeaf(leaf, key, value);
      } else if leaf.parent == null {
        AppendFirst(leaf, key, value);
      } else {
        var newLeaf := HangLeaf(leaf, key, value);
        LastSynced(0);
        root := AppendLeaf(newLeaf);
      }
    }

    lemma RefsSynced(l: nat)
      requires l < |levels| && Synced()
      ensures levels[l].Sized()
      ensures forall i | 0 <= i < |levels[l].heads| ::
          var x := levels[l].heads[i].ref;
          x in nodes && x.level == l && x.pos == i && x.parent == levels[l].parents[i]
    {
    }

    lemma NodeSynced(l: nat, i: nat)
      requires l < |levels| && i < |levels[l].heads| && Synced()
      ensures levels[l].Sized()
      ensures
        var x := levels[l].heads[i].ref;
        && x in nodes && x.level == l && x.pos == i && x.leaf == (l == 0)
        && CellOf(x) == levels[l].cells[i]
        && x.parent == levels[l].parents[i]
        && x in footprint && x.data in footprint
    {
    }

    /** With a part of the lock taken: follows the separators down to the leaf that covers `key`. */
    method FindLeaf(node: Node<V>, key: Key, ghost l: nat, ghost i: nat) returns (leaf: Node<V>)
      requires Valid() && l < |levels| && Covers(levels[l].heads, i, key) && node == levels[l].heads[i].ref
      requires sharedLock > 0
      ensures leaf.level == 0 && Covers(levels[0].heads, leaf.pos, key) && leaf == levels[0].heads[leaf.pos].ref
      decreases l
    {
      hide Pending, Agrees, Snapshot, Owned, Covers, Linked;
      CoversInside(levels[l].heads, i, key);
      NodeSynced(l, i);
      if node.leaf {
        return node;
      }
      LinkedNode(branchFactor, levels, contents, l, i);
      var j := 0;
      while j < node.size
        invariant j <= node.size
        invariant forall q | 0 <= q < j :: node.data[q].key <= key
      {
        if key < node.data[j].key {
          break;
        }
        j := j + 1;
      }
      ghost var up, down := levels[l], levels[l - 1];
      Descend(branchFactor, l == |levels| - 1, up.heads, up.cells, down.heads, down.parents, i, j, key);
      assert node.data[j].value == Addr(down.heads[up.heads[i].first + j].ref);
      CoversInside(down.heads, up.heads[i].first + j, key);
      leaf := FindLeaf(node.data[j].value.node, key, l - 1, up.heads[i].first + j);
    }

    /** Reading from the root through the child pointers, from left to right, gives the accepted pairs. */
    lemma ReadsLeftToRight()
      requires Valid()
      ensures Read(Snapshot(nodes), root, |levels| - 1) == contents
      ensures forall i, j | 0 <= i < j < |contents| :: contents[i].key < contents[j].key
    {
      hide LinkedAt, Leaves, Agrees, Read, Snapshot;
      ReadsContents(branchFactor, levels, contents, Snapshot(nodes));
    }

    /**
      The shape of every reachable tree: full leaves but for the last; exactly half the branch factor of keys
      in every internal node that has a right neighbour; bounds on the last internal node of a level.
    */
    lemma Shape(l: nat, i: nat)
      requires Valid() && l < |levels| && i < |levels[l].heads|
      ensures
        var x := levels[l].heads[i].ref;
        && x.data.Length == branchFactor && x.size < branchFactor
        && (x.leaf <==> l == 0) && (x.parent == null <==> x == root)
        && (l == 0 && i + 1 < |levels[0].heads| ==>
              x.size == branchFactor - 1 && x.data[x.size].value == Addr(levels[0].heads[i + 1].ref))
        && (l == 0 && i > 0 ==> x.size > 0)
        && (l > 0 && i + 1 < |levels[l].heads| ==> x.size == branchFactor / 2)
        && (l > 0 ==> x.size >= if x == root then 1 else branchFactor - 1 - branchFactor / 2)
    {
      hide Pending, Agrees, Snapshot, Owned;
      NodeSynced(l, i);
      TopIsRoot(branchFactor, levels, contents, 0);
      NodeSynced(|levels| - 1, 0);
      NodeShape(branchFactor, levels, contents, l, i);
      ParentShape(branchFactor, levels, contents, l, i);
    }

    /** Child `j` of an internal node points back to it, and the separator on its left is the first key under it. */
    lemma Child(l: nat, i: nat, j: nat)
      requires Valid() && 1 <= l < |levels| && i < |levels[l].heads| && j <= levels[l].heads[i].ref.size
      ensures
        var x, q := levels[l].heads[i].ref, levels[l].heads[i].first + j;
        && q < |levels[l - 1].heads| && j < x.data.Length
        && x.data[j].value == Addr(levels[l - 1].heads[q].ref)
        && levels[l - 1].heads[q].ref.parent == x
        && (j > 0 ==>
              && Start(levels, contents, l - 1, q) < |contents|
              && x.data[j - 1].key == contents[Start(levels, contents, l - 1, q)].key)
    {
      hide Pending, Agrees, Snapshot, Owned, Start;
      NodeSynced(l, i);
      ChildShape(branchFactor, levels, contents, l, i, j);
      var q := levels[l].heads[i].first + j;
      NodeSynced(l - 1, q);
      if j > 0 {
        MinKeyIsFirst(branchFactor, levels, contents, l - 1, q);
      }
    }

    /** With `h` internal levels a tree holds at least (bf - 1) * (bf / 2 + 1)^(h - 1) + 1 pairs. */
    lemma Depth()
      requires Valid() && |levels| > 1
      ensures |contents| >= (branchFactor - 1) * Power(branchFactor / 2 + 1, |levels| - 2) + 1
    {
      DepthIsLogarithmic(branchFactor, levels, contents);
    }

    /** An append takes the whole lock for itself, or is refused. */
    method Append(key: Key, value: V) returns (rc: Rc)
      requires Valid()
      modifies this, footprint
      ensures Valid() && fresh(footprint - old(footprint))
      ensures rc == if old(exclusiveLock) != 0 || old(sharedLock) != 0 then ELIDXLK
                    else if Above(old(contents), key) then Ok else ELIDXNM
      ensures rc == Ok ==> contents == old(contents) + [Pair(key, value)]
      ensures rc != Ok ==> unchanged(this) && unchanged(footprint)
      ensures exclusiveLock == old(exclusiveLock) && sharedLock == old(sharedLock)
      ensures forall leaf: Node<V>, idx, g | leaf in old(nodes) && Stands(old(levels[0]), leaf, idx, g) ::
          Stands(levels[0], leaf, idx, g)
    {
      hide Pending, Agrees, Snapshot, Owned, Stands;
      if exclusiveLock != 0 || sharedLock != 0 {
        return ELIDXLK;
      }
      exclusiveLock := 1;
      ghost var before, was := levels, contents;
      rc := TryAppend(key, value);
      exclusiveLock, sharedLock := 0, 0;
      forall leaf: Node<V>, idx, g | leaf in old(nodes) && Stands(before[0], leaf, idx, g)
        ensures Stands(levels[0], leaf, idx, g)
      {
        StandsFirm(branchFactor, before, was, levels, contents, leaf, idx, g);
      }
    }

    method LastValue() returns (found: bool, value: Word<V>)
      requires Valid()
      ensures found <==> |contents| > 0
      ensures found ==> value == User(Last(contents).value)
    {
      hide Pending, Agrees, Snapshot, Owned;
      LastSynced(0);
      LastLeafRoom(branchFactor, levels, contents);
      value := Addr(null);
      if lastLeaf.size == 0 {
        return false, value;
      }
      return true, lastLeaf.data[lastLeaf.size - 1].value;
    }

    /** An iterator at the greatest key not above `key`, or an invalid one when there is none. */
    method LeafFloor(key: Key) returns (rc: Rc, it: LeafIterator?<V>)
      requires Valid()
      modifies this`sharedLock
      ensures Valid() && |levels| > 0 && sharedLock == old(sharedLock)
      ensures rc == if exclusiveLock != 0 then ELIDXLK else Ok
      ensures rc == Ok ==> it != null && fresh(it) && (it.IsValid() <==> it.leaf != null)
      ensures rc == Ok && it.leaf == null ==> forall q | 0 <= q < |contents| :: key < contents[q].key
      ensures rc == Ok && it.leaf != null ==>
          exists g :: Floor(contents, key, g) && Stands(levels[0], it.leaf, it.idx, g)
    {
      hide Pending, Agrees, Snapshot, Owned;
      it := new LeafIterator(branchFactor);
      if exclusiveLock != 0 {
        return ELIDXLK, it;
      }
      rc := Ok;
      sharedLock := sharedLock + 1;
      RootCovers(branchFactor, levels, contents, key);
      var leaf := FindLeaf(root, key, |levels| - 1, 0);
      sharedLock := sharedLock - 1;
      ghost var p := leaf.pos;
      NodeSynced(0, p);
      LeafSize(branchFactor, levels, contents, p);
      var idx, i := -1, 0;
      while i < leaf.size
        invariant 0 <= i <= leaf.size && idx == i - 1
        invariant i > 0 ==> leaf.data[i - 1].key <= key
      {
        if leaf.data[i].key <= key {
          idx := i;
        } else {
          break;
        }
        i := i + 1;
      }
      if idx != -1 {
        LeafFloorIsFloor(branchFactor, levels, contents, p, idx, key);
        it.idx := idx;
        it.leaf := leaf;
      } else {
        NoFloor(branchFactor, levels, contents, p, key);
      }
    }

    /** mbptree_leaf_first is the floor of zero: it starts at the first pair if and only if that has the key 0. */
    method LeafFirst() returns (rc: Rc, it: LeafIterator?<V>)
      requires Valid()
      modifies this`sharedLock
      ensures Valid() && |levels| > 0 && sharedLock == old(sharedLock)
      ensures rc == if exclusiveLock != 0 then ELIDXLK else Ok
      ensures rc == Ok ==> it != null && fresh(it) && (it.IsValid() <==> it.leaf != null)
      ensures rc == Ok ==> (it.IsValid() <==> |contents| > 0 && contents[0].key == 0)
      ensures rc == Ok && it.IsValid() ==> Stands(levels[0], it.leaf, it.idx, 0)
    {
      hide Pending, Agrees, Snapshot, Owned, Stands;
      ReadsLeftToRight();
      rc, it := LeafFloor(0);
    }
  }

  class LeafIterator<V> {
    const branchFactor: nat
    var idx: nat
    var leaf: Node?<V>

    constructor (branchFactor: nat)
      ensures idx == 0 && leaf == null
    {
      this.branchFactor, idx, leaf := branchFactor, 0, null;
    }

    predicate IsValid()
      reads this, leaf
    {
      leaf != null && idx < leaf.size
    }

    /** Wherever an iterator is in a leaf, it is valid if and only if that is a position of the contents. */
    lemma ValidExactly(tree: Tree<V>)
      requires tree.Valid() && leaf != null && |tree.levels| > 0
      requires leaf.pos < |tree.levels[0].heads| && tree.levels[0].heads[leaf.pos].ref == leaf
      ensures IsValid() <==> exists g: nat :: Stands(tree.levels[0], leaf, idx, g)
    {
      hide Pending, Agrees, Snapshot, Owned;
      tree.NodeSynced(0, leaf.pos);
      if IsValid() {
        assert Stands(tree.levels[0], leaf, idx, tree.levels[0].heads[leaf.pos].first + idx);
      }
    }

    /** A valid iterator at position `g` of the contents reads the pair there. */
    method Current(ghost tree: Tree<V>, ghost g: nat) returns (key: Key, value: Word<V>)
      requires tree.Valid() && leaf != null && Stands(tree.levels[0], leaf, idx, g)
      ensures g < |tree.contents| && key == tree.contents[g].key && value == User(tree.contents[g].value)
    {
      hide Pending, Agrees, Snapshot, Owned;
      tree.NodeSynced(0, leaf.pos);
      StandsHolds(tree.branchFactor, tree.levels, tree.contents, leaf, idx, g);
      key, value := leaf.data[idx].key, leaf.data[idx].value;
    }

    /** Moves to the next pair, or becomes invalid after the last one. */
    method Next(ghost tree: Tree<V>, ghost g: nat)
      requires tree.Valid() && leaf != null && Stands(tree.levels[0], leaf, idx, g)
      modifies this
      ensures if g + 1 < |tree.contents| then leaf != null && Stands(tree.levels[0], leaf, idx, g + 1) else leaf == null
      ensures IsValid() <==> leaf != null
    {
      hide Pending, Agrees, Snapshot, Owned;
      tree.NodeSynced(0, leaf.pos);
      StandsNext(tree.branchFactor, tree.levels, tree.contents, leaf, idx, g);
      var nextIdx := idx + 1;
      if nextIdx == leaf.size {
        leaf := leaf.data[leaf.size].value.node;
        idx := 0;
        if leaf != null {
          tree.NodeSynced(0, leaf.pos);
        }
      } else {
        idx := nextIdx;
      }
    }
  }

  /** Repeated moves of an iterator at position `g` visit the pairs from there on, once and in order. */
  method ReadOn<V>(tree: Tree<V>, it: LeafIterator<V>, ghost g: nat) returns (pairs: seq<Pair<V>>)
    requires tree.Valid() && |tree.levels| > 0 && it.leaf != null && it.IsValid()
    requires Stands(tree.levels[0], it.leaf, it.idx, g) && g < |tree.contents| && it !in tree.footprint
    modifies it
    ensures tree.Valid() && !it.IsValid()
    ensures pairs == tree.contents[g..]
  {
    hide Pending, Agrees, Snapshot, Owned, Stands, Tree.Valid;
    pairs := [];
    ghost var i := g;
    while it.IsValid()
      invariant tree.Valid() && |tree.levels| > 0 && (it.IsValid() <==> it.leaf != null)
      invariant g <= i <= |tree.contents| && pairs == tree.contents[g..i] && (i == g ==> it.leaf != null)
      invariant if it.leaf == null then i == |tree.contents| else Stands(tree.levels[0], it.leaf, it.idx, i)
      decreases |tree.contents| - i
    {
      var k, value := it.Current(tree, i);
      SliceSnoc(tree.contents, g, i);
      pairs := pairs + [Pair(k, value.value)];
      it.Next(tree, i);
      i := i + 1;
    }
  }

  /** From the floor of `key`, the iterator visits every pair from there on, once and in order. */
  method ReadFrom<V>(tree: Tree<V>, key: Key) returns (pairs: seq<Pair<V>>)
    requires tree.Valid() && tree.exclusiveLock == 0
    modifies tree`sharedLock
    ensures tree.Valid() && tree.sharedLock == old(tree.sharedLock)
    ensures pairs == From(tree.contents, key)
  {
    hide Pending, Agrees, Snapshot, Owned, Stands, Tree.Valid, From;
    var rc, it := tree.LeafFloor(key);
    if !it.IsValid() {
      NothingFrom(tree.contents, key);
      return [];
    }
    ghost var g: nat :| Floor(tree.contents, key, g) && Stands(tree.levels[0], it.leaf, it.idx, g);
    tree.ReadsLeftToRight();
    FloorStarts(tree.contents, key, g);
    pairs := ReadOn(tree, it, g);
  }

  /** A run of appends on a new tree keeps exactly the pairs whose key is above all earlier ones. */
  method AppendAll<V>(branchFactor: nat, pairs: seq<Pair<V>>) returns (tree: Tree<V>)
    requires branchFactor >= 3
    ensures tree.Valid() && fresh(tree) && fresh(tree.footprint)
    ensures tree.contents == Records(pairs)
  {
    hide Pending, Agrees, Snapshot, Owned, Stands, Accepted;
    tree := new Tree(branchFactor);
    assert pairs[..0] == [];
    EmptyRun<V>();
    for i := 0 to |pairs|
      invariant tree.Valid() && fresh(tree) && fresh(tree.footprint)
      invariant tree.exclusiveLock == 0 && tree.sharedLock == 0
      invariant tree.contents == Accepted([], pairs[..i])
    {
      AcceptedSnoc([], pairs[..i], pairs[i]);
      assert pairs[..i + 1] == pairs[..i] + [pairs[i]];
      var rc := tree.Append(pairs[i].key, pairs[i].value);
    }
    assert pairs[..|pairs|] == pairs;
    AcceptsRecords(pairs);
  }
}
