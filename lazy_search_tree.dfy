/**
 * The lazy-deletion binary search tree object: the root link and the two
 * counters, mSize (live nodes) and mSizeHard (all nodes).  Mutators update
 * the fields in place; the pure accessors are functions reading them.
 */
module LazyTrees {
  import opened LazyNodes

  /** The two exceptions the public operations can raise. */
  datatype Error = NoSuchElement | NullPointer

  datatype Result<T> = Ok(value: T) | Err(error: Error)

  class LazySearchTree {
    var mSize: int
    var mSizeHard: int
    var mRoot: Tree

    /** Ordering over all nodes, and each counter equals the count it stands for. */
    ghost predicate Valid()
      reads this
    {
      IsBST(mRoot) && mSize == SoftCount(mRoot) && mSizeHard == HardCount(mRoot)
    }

    /** Creates an empty tree. */
    constructor ()
      ensures Valid() && mRoot == Leaf && mSize == 0 && mSizeHard == 0
    {
      new;
      Clear();
    }

    /** Resets the tree to its empty state. */
    method Clear()
      modifies this
      ensures Valid() && mRoot == Leaf && mSize == 0 && mSizeHard == 0
    {
      mSize := 0;
      mSizeHard := 0;
      mRoot := Leaf;
    }

    /** True when no element is live (deleted nodes may remain). */
    function Empty(): (r: bool)
      reads this
      requires Valid()
      ensures r <==> LiveSet(mRoot) == {}
    {
      SoftCountZero(mRoot);
      mSize == 0
    }

    /** The soft size: how many elements a soft traversal visits. */
    function Size(): (r: int)
      reads this
      requires Valid()
      ensures r == |LazyNodes.TraverseSoft(mRoot)|
      ensures r <= mSizeHard
    {
      SoftAtMostHard(mRoot);
      mSize
    }

    /** The hard size: how many nodes there are, deleted ones included. */
    function SizeHard(): (r: int)
      reads this
      requires Valid()
      ensures r == |LazyNodes.TraverseHard(mRoot)|
      ensures mSize <= r
    {
      SoftAtMostHard(mRoot);
      mSizeHard
    }

    /** The height of the hard tree, -1 when there is no node. */
    function ShowHeight(): (h: int)
      reads this
      requires Valid()
      ensures h == Height(mRoot)
      ensures -1 <= h < mSizeHard
      ensures h == -1 <==> mRoot == Leaf
    {
      HeightBounds(mRoot);
      FindHeight(mRoot, -1)
    }

    /**
     * The least live element.  An empty root raises NoSuchElement; when
     * nodes remain but every one is deleted, the node-level search returns
     * null and reading its data raises NullPointer.
     */
    function FindMin(): (r: Result<int>)
      reads this
      requires Valid()
      ensures mRoot == Leaf ==> r == Err(NoSuchElement)
      ensures mRoot != Leaf && LiveSet(mRoot) == {} ==> r == Err(NullPointer)
      ensures LiveSet(mRoot) != {} ==>
        r.Ok? && r.value in LiveSet(mRoot) && forall y :: y in LiveSet(mRoot) ==> r.value <= y
    {
      FindMinIsLeast(mRoot);
      if mRoot == Leaf then Err(NoSuchElement)
      else
        var node := LazyNodes.FindMin(mRoot);
        if node == Leaf then Err(NullPointer) else Ok(node.data)
    }

    /** The greatest live element; the error cases are those of FindMin. */
    function FindMax(): (r: Result<int>)
      reads this
      requires Valid()
      ensures mRoot == Leaf ==> r == Err(NoSuchElement)
      ensures mRoot != Leaf && LiveSet(mRoot) == {} ==> r == Err(NullPointer)
      ensures LiveSet(mRoot) != {} ==>
        r.Ok? && r.value in LiveSet(mRoot) && forall y :: y in LiveSet(mRoot) ==> y <= r.value
    {
      FindMaxIsGreatest(mRoot);
      if mRoot == Leaf then Err(NoSuchElement)
      else
        var node := LazyNodes.FindMax(mRoot);
        if node == Leaf then Err(NullPointer) else Ok(node.data)
    }

    /** FindMin guarded by the soft size, so that every empty soft view reports NoSuchElement. */
    function FindMinChecked(): (r: Result<int>)
      reads this
      requires Valid()
      ensures r.Err? <==> LiveSet(mRoot) == {}
      ensures r.Err? ==> r.error == NoSuchElement
      ensures r.Ok? ==> r.value in LiveSet(mRoot) && forall y :: y in LiveSet(mRoot) ==> r.value <= y
    {
      FindMinIsLeast(mRoot);
      if Empty() then Err(NoSuchElement) else Ok(LazyNodes.FindMin(mRoot).data)
    }

    /** FindMax guarded by the soft size, so that every empty soft view reports NoSuchElement. */
    function FindMaxChecked(): (r: Result<int>)
      reads this
      requires Valid()
      ensures r.Err? <==> LiveSet(mRoot) == {}
      ensures r.Err? ==> r.error == NoSuchElement
      ensures r.Ok? ==> r.value in LiveSet(mRoot) && forall y :: y in LiveSet(mRoot) ==> y <= r.value
    {
      FindMaxIsGreatest(mRoot);
      if Empty() then Err(NoSuchElement) else Ok(LazyNodes.FindMax(mRoot).data)
    }

    /** The stored element equal to x; NoSuchElement when x is absent or deleted. */
    function Find(x: int): (r: Result<int>)
      reads this
      requires Valid()
      ensures r.Ok? <==> x in LiveSet(mRoot)
      ensures r.Ok? ==> r.value == x
      ensures r.Err? ==> r.error == NoSuchElement
    {
      var resultNode := LazyNodes.Find(mRoot, x);
      if resultNode == Leaf then Err(NoSuchElement) else Ok(resultNode.data)
    }

    /** Whether x is a live element. */
    function Contains(x: int): (r: bool)
      reads this
      requires Valid()
      ensures r <==> x in LiveSet(mRoot)
    {
      LazyNodes.Find(mRoot, x) != Leaf
    }

    /** The elements a soft traversal visits: the live ones, in increasing order. */
    function TraverseSoft(): (s: seq<int>)
      reads this
      requires Valid()
      ensures StrictlyIncreasing(s)
      ensures forall y :: y in s <==> y in LiveSet(mRoot)
      ensures |s| == mSize
    {
      SoftSorted(mRoot);
      LazyNodes.TraverseSoft(mRoot)
    }

    /** The elements a hard traversal visits: all of them, in increasing order. */
    function TraverseHard(): (s: seq<int>)
      reads this
      requires Valid()
      ensures StrictlyIncreasing(s)
      ensures forall y :: y in s <==> y in Elements(mRoot)
      ensures |s| == mSizeHard
    {
      HardSorted(mRoot);
      LazyNodes.TraverseHard(mRoot)
    }

    /**
     * Inserts x.  An absent x gets a new node (both counters rise); a
     * deleted x is resurrected in place (mSize rises, no node is created);
     * a live x changes nothing.  Returns whether mSize changed.
     */
    method Insert(x: int) returns (changed: bool)
      requires Valid()
      modifies this
      ensures Valid()
      ensures mRoot == Inserted(old(mRoot), x)
      ensures changed <==> x !in old(LiveSet(mRoot))
      ensures LiveSet(mRoot) == old(LiveSet(mRoot)) + {x}
      ensures Elements(mRoot) == old(Elements(mRoot)) + {x}
      ensures mSize == old(mSize) + (if changed then 1 else 0)
      ensures mSizeHard == old(mSizeHard) + (if x in old(Elements(mRoot)) then 0 else 1)
      ensures x in old(Elements(mRoot)) ==> SameShape(mRoot, old(mRoot))
      ensures !changed ==> mRoot == old(mRoot)
    {
      var oldSize := mSize;
      ghost var before := mRoot;
      mRoot := InsertAt(mRoot, x);
      InsertedElements(before, x);
      InsertedBST(before, x);
      InsertedCounts(before, x);
      if x in Elements(before) { InsertedPresentKeepsShape(before, x); }
      if x in LiveSet(before) { InsertedLiveUnchanged(before, x); }
      changed := mSize != oldSize;
    }

    /**
     * Lazily removes x: a live x gets its deleted flag set and mSize drops;
     * otherwise nothing changes.  The shape and mSizeHard never change.
     * Returns whether mSize changed.
     */
    method Remove(x: int) returns (changed: bool)
      requires Valid()
      modifies this
      ensures Valid()
      ensures mRoot == MarkDeleted(old(mRoot), x) && SameShape(mRoot, old(mRoot))
      ensures changed <==> x in old(LiveSet(mRoot))
      ensures LiveSet(mRoot) == old(LiveSet(mRoot)) - {x}
      ensures mSize == old(mSize) - (if changed then 1 else 0)
      ensures mSizeHard == old(mSizeHard)
      ensures !changed ==> mRoot == old(mRoot)
    {
      var oldSize := mSize;
      ghost var before := mRoot;
      mRoot := RemoveAt(mRoot, x);
      MarkDeletedKeepsShape(before, x);
      SameShapeAgrees(mRoot, before);
      MarkDeletedLive(before, x);
      MarkDeletedFound(before, x);
      changed := mSize != oldSize;
    }

    /**
     * The node-level insert: returns the new subtree and raises each
     * counter by the number of nodes (live nodes) it added.
     */
    method InsertAt(root: Tree, x: int) returns (r: Tree)
      modifies this`mSize, this`mSizeHard
      ensures r == Inserted(root, x)
      ensures mSize == old(mSize) + SoftCount(r) - SoftCount(root)
      ensures mSizeHard == old(mSizeHard) + HardCount(r) - HardCount(root)
    {
      if root == Leaf {
        mSize := mSize + 1;
        mSizeHard := mSizeHard + 1;
        return Node(Leaf, x, false, Leaf);
      }
      r := root;
      if x < root.data {
        var lft := InsertAt(root.left, x);
        r := r.(left := lft);
      } else if x > root.data {
        var rt := InsertAt(root.right, x);
        r := r.(right := rt);
      } else if root.deleted {
        r := r.(deleted := false);
        mSize := mSize + 1;
      }
    }

    /**
     * The node-level lazy remove: flags the node find(root, x) returns and
     * lowers mSize by one, or leaves everything as it is when find fails.
     */
    method RemoveAt(root: Tree, x: int) returns (r: Tree)
      modifies this`mSize
      ensures r == MarkDeleted(root, x)
      ensures mSize == old(mSize) + SoftCount(r) - SoftCount(root)
    {
      MarkDeletedFound(root, x);
      if root == Leaf {
        return root;
      }
      var temp := LazyNodes.Find(root, x);
      r := root;
      if temp != Leaf {
        r := MarkDeleted(root, x);
        mSize := mSize - 1;
      }
    }

    /**
     * clone(): a new tree over a fresh copy of the nodes.  The copy's
     * nodes are all live, mSize is copied and mSizeHard stays 0 from clear().
     */
    method Clone() returns (c: LazySearchTree)
      ensures fresh(c)
      ensures c.mRoot == CloneSubtree(mRoot)
      ensures c.mSize == mSize && c.mSizeHard == 0
    {
      c := new LazySearchTree();
      c.Clear();
      c.mRoot := CloneSubtree(mRoot);
      c.mSize := mSize;
    }

    /** A clone that keeps the deleted flags and both counters, so the copy is valid. */
    method CloneKeepingCounts() returns (c: LazySearchTree)
      requires Valid()
      ensures fresh(c) && c.Valid()
      ensures c.mRoot == mRoot && c.mSize == mSize && c.mSizeHard == mSizeHard
    {
      c := new LazySearchTree();
      c.Clear();
      c.mRoot := CloneSubtreeKeepingFlags(mRoot);
      c.mSize := mSize;
      c.mSizeHard := mSizeHard;
    }
  }

  /** Whether counters `size` and `sizeHard` describe `root` as Valid() demands. */
  ghost predicate CountersAgree(root: Tree, size: int, sizeHard: int) {
    size == SoftCount(root) && sizeHard == HardCount(root)
  }

  /**
   * clone() leaves inconsistent counters on every non-empty tree: mSizeHard
   * is 0 although the copy has nodes, and when the original had deleted
   * nodes the copy has more live nodes than its mSize says.
   */
  lemma {:induction false} CloneBreaksCounters(root: Tree)
    requires root != Leaf
    ensures !CountersAgree(CloneSubtree(root), SoftCount(root), 0)
    ensures SoftCount(CloneSubtree(root)) == HardCount(root)
  {
    CloneSubtreeRevives(root);
  }

  /** Example run: insert 5, 3, 8, 1, 4, remove 3 twice, insert 3 again. */
  method Example()
  {
    var t := new LazySearchTree();
    var b := t.Insert(5);
    b := t.Insert(3);
    b := t.Insert(8);
    b := t.Insert(1);
    b := t.Insert(4);
    assert LiveSet(t.mRoot) == {5, 3, 8, 1, 4} && t.mSize == 5 && t.mSizeHard == 5;
    b := t.Remove(3);
    assert b && t.mSize == 4 && t.mSizeHard == 5;
    assert !t.Contains(3) && t.Find(3) == Err(NoSuchElement);
    b := t.Remove(3);
    assert !b && t.mSize == 4;
    b := t.Insert(3);
    assert b && t.mSize == 5 && t.mSizeHard == 5 && t.Contains(3);
    t.Clear();
    assert t.Empty() && t.FindMinChecked() == Err(NoSuchElement);
  }

  /** Every node deleted: findMin as written dereferences null; the guarded version reports NoSuchElement. */
  method ExampleAllDeleted()
  {
    var t := new LazySearchTree();
    var b := t.Insert(3);
    b := t.Remove(3);
    assert t.FindMin() == Err(NullPointer) && t.FindMax() == Err(NullPointer);
    assert t.FindMinChecked() == Err(NoSuchElement) && t.FindMaxChecked() == Err(NoSuchElement);
  }
}
