/**
 * The node level of the lazy-deletion binary search tree: the node shape
 * (LazySTNode), the side-effect-free recursions over it (find, soft
 * findMin/findMax, the two in-order traversals, findHeight, cloneSubtree),
 * the tree each mutator produces, and the facts the tree class relies on.
 *
 * A null child link is `Leaf`; a LazySTNode is `Node`.  Elements are
 * integers, compared with `<`, standing in for `Comparable.compareTo`.
 */
module LazyNodes {

  datatype Tree = Leaf | Node(left: Tree, data: int, deleted: bool, right: Tree)

  // ---------------------------------------------------------------------
  // Abstract view of a tree

  /** Every element held by some node, deleted or not. */
  ghost function Elements(t: Tree): set<int> {
    match t
    case Leaf => {}
    case Node(l, d, _, r) => Elements(l) + {d} + Elements(r)
  }

  /** The elements held by nodes whose deleted flag is clear. */
  ghost function LiveSet(t: Tree): set<int> {
    match t
    case Leaf => {}
    case Node(l, d, del, r) => LiveSet(l) + (if del then {} else {d}) + LiveSet(r)
  }

  /** Number of nodes (what mSizeHard counts). */
  ghost function HardCount(t: Tree): nat {
    match t
    case Leaf => 0
    case Node(l, _, _, r) => HardCount(l) + 1 + HardCount(r)
  }

  /** Number of nodes whose deleted flag is clear (what mSize counts). */
  ghost function SoftCount(t: Tree): nat {
    match t
    case Leaf => 0
    case Node(l, _, del, r) => SoftCount(l) + (if del then 0 else 1) + SoftCount(r)
  }

  /** Search-tree ordering over all nodes, deleted ones included. */
  ghost predicate IsBST(t: Tree) {
    match t
    case Leaf => true
    case Node(l, d, _, r) =>
      IsBST(l) && IsBST(r) &&
      (forall y :: y in Elements(l) ==> y < d) &&
      (forall y :: y in Elements(r) ==> d < y)
  }

  /** Same nodes and elements in the same places; only deleted flags may differ. */
  ghost predicate SameShape(a: Tree, b: Tree) {
    match a
    case Leaf => b.Leaf?
    case Node(l, d, _, r) =>
      b.Node? && b.data == d && SameShape(l, b.left) && SameShape(r, b.right)
  }

  /** Longest root-to-leaf path counted in edges; -1 for the empty tree. */
  ghost function Height(t: Tree): int {
    match t
    case Leaf => -1
    case Node(l, _, _, r) => 1 + (if Height(l) > Height(r) then Height(l) else Height(r))
  }

  ghost predicate StrictlyIncreasing(s: seq<int>) {
    forall i, j :: 0 <= i < j < |s| ==> s[i] < s[j]
  }

  /** One visited node: its element and its deleted flag. */
  datatype Entry = Entry(data: int, deleted: bool)

  /** The nodes of `t` in in-order, flags included. */
  ghost function InOrder(t: Tree): seq<Entry> {
    match t
    case Leaf => []
    case Node(l, d, del, r) => InOrder(l) + [Entry(d, del)] + InOrder(r)
  }

  ghost function DataOf(s: seq<Entry>): seq<int> {
    if s == [] then [] else [s[0].data] + DataOf(s[1..])
  }

  /** `s` with the deleted entries filtered out. */
  ghost function LiveOnly(s: seq<Entry>): seq<Entry> {
    if s == [] then [] else (if s[0].deleted then [] else [s[0]]) + LiveOnly(s[1..])
  }

  // ---------------------------------------------------------------------
  // Node-level operations of the source

  /** traverseHard: the elements visited, every node in in-order. */
  function TraverseHard(t: Tree): (r: seq<int>)
    ensures |r| == HardCount(t)
    ensures forall y :: y in r <==> y in Elements(t)
  {
    match t
    case Leaf => []
    case Node(l, d, _, rt) => TraverseHard(l) + [d] + TraverseHard(rt)
  }

  /** traverseSoft: the elements visited, live nodes only, in in-order. */
  function TraverseSoft(t: Tree): (r: seq<int>)
    ensures |r| == SoftCount(t)
    ensures forall y :: y in r <==> y in LiveSet(t)
  {
    match t
    case Leaf => []
    case Node(l, d, del, rt) =>
      TraverseSoft(l) + (if del then [] else [d]) + TraverseSoft(rt)
  }

  /** find(root, x): the live node holding x on the search path, or Leaf for null. */
  function Find(t: Tree, x: int): (r: Tree)
    ensures r.Node? ==> r.data == x && !r.deleted && x in LiveSet(t)
    ensures IsBST(t) && x in LiveSet(t) ==> r.Node?
  {
    match t
    case Leaf => Leaf
    case Node(l, d, del, rt) =>
      LiveSubset(l);
      LiveSubset(rt);
      if x < d then Find(l, x)
      else if x > d then Find(rt, x)
      else if del then Leaf
      else t
  }

  /**
   * Soft findMin(root): the leftmost live node, or Leaf for null when no
   * node of the subtree is live.  It is the first element traverseSoft visits.
   */
  function FindMin(t: Tree): (r: Tree)
    ensures r.Node? <==> TraverseSoft(t) != []
    ensures r.Node? ==> !r.deleted && r.data == TraverseSoft(t)[0]
  {
    match t
    case Leaf => Leaf
    case Node(l, _, del, rt) =>
      var temp := FindMin(l);
      if temp.Node? then temp
      else if !del then t
      else FindMin(rt)
  }

  /**
   * Soft findMax(root): the rightmost live node, or Leaf for null when no
   * node of the subtree is live.  It is the last element traverseSoft visits.
   */
  function FindMax(t: Tree): (r: Tree)
    ensures r.Node? <==> TraverseSoft(t) != []
    ensures r.Node? ==> !r.deleted && r.data == TraverseSoft(t)[|TraverseSoft(t)| - 1]
  {
    match t
    case Leaf => Leaf
    case Node(l, _, del, rt) =>
      var temp := FindMax(rt);
      if temp.Node? then temp
      else if !del then t
      else FindMax(l)
  }

  /** findHeight(treeNode, height): `height` plus the edges below it, so findHeight(t, -1) is the height. */
  function FindHeight(t: Tree, height: int): (r: int)
    ensures r == height + 1 + Height(t)
  {
    match t
    case Leaf => height
    case Node(l, _, _, rt) =>
      var leftHeight := FindHeight(l, height + 1);
      var rightHeight := FindHeight(rt, height + 1);
      if leftHeight > rightHeight then leftHeight else rightHeight
  }

  /**
   * cloneSubtree(root): a fresh copy of every node.  The node constructor
   * clears the deleted flag, so every node of the copy is live.
   */
  function CloneSubtree(t: Tree): (r: Tree)
    ensures SameShape(r, t)
    ensures LiveSet(r) == Elements(t)
  {
    match t
    case Leaf => Leaf
    case Node(l, d, _, rt) => Node(CloneSubtree(l), d, false, CloneSubtree(rt))
  }

  /** A structural copy that carries each node's deleted flag over. */
  function CloneSubtreeKeepingFlags(t: Tree): (r: Tree)
    ensures r == t
  {
    match t
    case Leaf => Leaf
    case Node(l, d, del, rt) => Node(CloneSubtreeKeepingFlags(l), d, del, CloneSubtreeKeepingFlags(rt))
  }

  /**
   * The tree insert(root, x) leaves behind: a new live node at the empty
   * slot the search reaches, or the matching node with its flag cleared.
   */
  function Inserted(t: Tree, x: int): Tree {
    match t
    case Leaf => Node(Leaf, x, false, Leaf)
    case Node(l, d, del, r) =>
      if x < d then Node(Inserted(l, x), d, del, r)
      else if x > d then Node(l, d, del, Inserted(r, x))
      else if del then Node(l, d, false, r)
      else t
  }

  /** The tree remove(root, x) leaves behind: the node find(root, x) returns, flagged deleted. */
  function MarkDeleted(t: Tree, x: int): Tree {
    match t
    case Leaf => Leaf
    case Node(l, d, del, r) =>
      if x < d then Node(MarkDeleted(l, x), d, del, r)
      else if x > d then Node(l, d, del, MarkDeleted(r, x))
      else Node(l, d, true, r)
  }

  // ---------------------------------------------------------------------
  // Counters

  lemma {:induction false} LiveSubset(t: Tree)
    ensures LiveSet(t) <= Elements(t)
  {
    match t
    case Leaf =>
    case Node(l, _, _, r) => LiveSubset(l); LiveSubset(r);
  }

  /** mSize <= mSizeHard, with equality exactly when no node is deleted. */
  lemma {:induction false} SoftAtMostHard(t: Tree)
    ensures SoftCount(t) <= HardCount(t)
    ensures SoftCount(t) == HardCount(t) <==> TraverseSoft(t) == TraverseHard(t)
  {
    match t
    case Leaf =>
    case Node(l, d, del, r) =>
      SoftAtMostHard(l);
      SoftAtMostHard(r);
      if SoftCount(t) == HardCount(t) {
        assert TraverseSoft(l) == TraverseHard(l);
        assert TraverseSoft(r) == TraverseHard(r);
      }
  }

  /** The live count is zero exactly when no element is live. */
  lemma {:induction false} SoftCountZero(t: Tree)
    ensures SoftCount(t) == 0 <==> LiveSet(t) == {}
  {
    match t
    case Leaf =>
    case Node(l, d, del, r) =>
      SoftCountZero(l);
      SoftCountZero(r);
      if !del { assert d in LiveSet(t); }
  }

  lemma {:induction false} HeightBounds(t: Tree)
    ensures -1 <= Height(t) < HardCount(t)
    ensures Height(t) == -1 <==> t == Leaf
  {
    match t
    case Leaf =>
    case Node(l, _, _, r) => HeightBounds(l); HeightBounds(r);
  }

  // ---------------------------------------------------------------------
  // Traversals

  lemma {:induction false} DataOfConcat(a: seq<Entry>, b: seq<Entry>)
    ensures DataOf(a + b) == DataOf(a) + DataOf(b)
  {
    if a == [] {
      assert a + b == b;
    } else {
      assert (a + b)[0] == a[0];
      assert (a + b)[1..] == a[1..] + b;
      DataOfConcat(a[1..], b);
    }
  }

  lemma {:induction false} LiveOnlyConcat(a: seq<Entry>, b: seq<Entry>)
    ensures LiveOnly(a + b) == LiveOnly(a) + LiveOnly(b)
  {
    if a == [] {
      assert a + b == b;
    } else {
      assert (a + b)[0] == a[0];
      assert (a + b)[1..] == a[1..] + b;
      LiveOnlyConcat(a[1..], b);
    }
  }

  /** traverseHard visits the element of every in-order node. */
  lemma {:induction false} TraverseHardIsInOrder(t: Tree)
    ensures TraverseHard(t) == DataOf(InOrder(t))
  {
    match t
    case Leaf =>
    case Node(l, d, del, r) =>
      TraverseHardIsInOrder(l);
      TraverseHardIsInOrder(r);
      DataOfConcat(InOrder(l) + [Entry(d, del)], InOrder(r));
      DataOfConcat(InOrder(l), [Entry(d, del)]);
  }

  /** traverseSoft visits the same in-order nodes with the deleted ones filtered out. */
  lemma {:induction false} TraverseSoftIsLiveInOrder(t: Tree)
    ensures TraverseSoft(t) == DataOf(LiveOnly(InOrder(t)))
  {
    match t
    case Leaf =>
    case Node(l, d, del, r) =>
      TraverseSoftIsLiveInOrder(l);
      TraverseSoftIsLiveInOrder(r);
      var e := [Entry(d, del)];
      LiveOnlyConcat(InOrder(l) + e, InOrder(r));
      LiveOnlyConcat(InOrder(l), e);
      assert LiveOnly(e) == (if del then [] else e) by {
        assert e[1..] == [];
      }
      DataOfConcat(LiveOnly(InOrder(l)) + LiveOnly(e), LiveOnly(InOrder(r)));
      DataOfConcat(LiveOnly(InOrder(l)), LiveOnly(e));
  }

  lemma JoinIncreasing(a: seq<int>, m: seq<int>, b: seq<int>, d: int)
    requires StrictlyIncreasing(a) && StrictlyIncreasing(b)
    requires m == [] || m == [d]
    requires forall y :: y in a ==> y < d
    requires forall y :: y in b ==> d < y
    ensures StrictlyIncreasing(a + m + b)
  {
    var s := a + m + b;
    forall i, j | 0 <= i < j < |s| ensures s[i] < s[j] {
      if j < |a| {
      } else if i < |a| {
        assert s[i] in a;
        if j < |a| + |m| { assert s[j] == d; } else { assert s[j] == b[j - |a| - |m|]; assert s[j] in b; }
      } else if i < |a| + |m| {
        assert s[j] == b[j - |a| - |m|];
        assert s[j] in b;
      } else {
        assert s[i] == b[i - |a| - |m|] && s[j] == b[j - |a| - |m|];
      }
    }
  }

  /** Under the ordering invariant traverseHard is strictly increasing. */
  lemma {:induction false} HardSorted(t: Tree)
    requires IsBST(t)
    ensures StrictlyIncreasing(TraverseHard(t))
  {
    match t
    case Leaf =>
    case Node(l, d, _, r) =>
      HardSorted(l);
      HardSorted(r);
      JoinIncreasing(TraverseHard(l), [d], TraverseHard(r), d);
  }

  /** Under the ordering invariant traverseSoft is strictly increasing. */
  lemma {:induction false} SoftSorted(t: Tree)
    requires IsBST(t)
    ensures StrictlyIncreasing(TraverseSoft(t))
  {
    match t
    case Leaf =>
    case Node(l, d, del, r) =>
      SoftSorted(l);
      SoftSorted(r);
      LiveSubset(l);
      LiveSubset(r);
      JoinIncreasing(TraverseSoft(l), if del then [] else [d], TraverseSoft(r), d);
  }

  // ---------------------------------------------------------------------
  // Lookups

  /** Under the ordering invariant soft findMin returns the least live element. */
  lemma {:induction false} FindMinIsLeast(t: Tree)
    requires IsBST(t)
    ensures FindMin(t).Node? <==> LiveSet(t) != {}
    ensures FindMin(t).Node? ==>
      FindMin(t).data in LiveSet(t) && forall y :: y in LiveSet(t) ==> FindMin(t).data <= y
  {
    var s := TraverseSoft(t);
    SoftSorted(t);
    SoftCountZero(t);
    if s != [] {
      var m := s[0];
      assert m in s;
      forall y | y in LiveSet(t) ensures m <= y {
        assert y in s;
        var k :| 0 <= k < |s| && s[k] == y;
        assert k == 0 || s[0] < s[k];
      }
    }
  }

  /** Under the ordering invariant soft findMax returns the greatest live element. */
  lemma {:induction false} FindMaxIsGreatest(t: Tree)
    requires IsBST(t)
    ensures FindMax(t).Node? <==> LiveSet(t) != {}
    ensures FindMax(t).Node? ==>
      FindMax(t).data in LiveSet(t) && forall y :: y in LiveSet(t) ==> y <= FindMax(t).data
  {
    var s := TraverseSoft(t);
    SoftSorted(t);
    SoftCountZero(t);
    if s != [] {
      var m := s[|s| - 1];
      assert m in s;
      forall y | y in LiveSet(t) ensures y <= m {
        assert y in s;
        var k :| 0 <= k < |s| && s[k] == y;
        assert k == |s| - 1 || s[k] < s[|s| - 1];
      }
    }
  }

  // ---------------------------------------------------------------------
  // Shapes

  /** Trees of the same shape hold the same elements in the same order. */
  lemma {:induction false} SameShapeAgrees(a: Tree, b: Tree)
    requires SameShape(a, b)
    ensures Elements(a) == Elements(b) && HardCount(a) == HardCount(b)
    ensures TraverseHard(a) == TraverseHard(b) && Height(a) == Height(b)
    ensures IsBST(a) <==> IsBST(b)
  {
    match a
    case Leaf =>
    case Node(l, _, _, r) =>
      SameShapeAgrees(l, b.left);
      SameShapeAgrees(r, b.right);
  }

  /** The copy cloneSubtree makes is all live: it shows every element of the original, deleted ones too. */
  lemma {:induction false} CloneSubtreeRevives(t: Tree)
    ensures TraverseSoft(CloneSubtree(t)) == TraverseHard(t)
    ensures SoftCount(CloneSubtree(t)) == HardCount(t)
  {
    match t
    case Leaf =>
    case Node(l, _, _, r) => CloneSubtreeRevives(l); CloneSubtreeRevives(r);
  }

  // ---------------------------------------------------------------------
  // insert

  /** insert adds x to the elements and makes it live, whatever else holds. */
  lemma {:induction false} InsertedElements(t: Tree, x: int)
    ensures Elements(Inserted(t, x)) == Elements(t) + {x}
    ensures LiveSet(Inserted(t, x)) == LiveSet(t) + {x}
  {
    match t
    case Leaf =>
    case Node(l, d, _, r) =>
      if x < d { InsertedElements(l, x); } else if x > d { InsertedElements(r, x); }
  }

  /** insert preserves the ordering invariant. */
  lemma {:induction false} InsertedBST(t: Tree, x: int)
    requires IsBST(t)
    ensures IsBST(Inserted(t, x))
  {
    match t
    case Leaf =>
    case Node(l, d, _, r) =>
      if x < d {
        InsertedBST(l, x);
        InsertedElements(l, x);
      } else if x > d {
        InsertedBST(r, x);
        InsertedElements(r, x);
      }
  }

  /**
   * A new node is added exactly when x is absent; the live count rises
   * exactly when x is not live.
   */
  lemma {:induction false} InsertedCounts(t: Tree, x: int)
    requires IsBST(t)
    ensures HardCount(Inserted(t, x)) == HardCount(t) + (if x in Elements(t) then 0 else 1)
    ensures SoftCount(Inserted(t, x)) == SoftCount(t) + (if x in LiveSet(t) then 0 else 1)
  {
    match t
    case Leaf =>
    case Node(l, d, _, r) =>
      LiveSubset(l);
      LiveSubset(r);
      if x < d { InsertedCounts(l, x); } else if x > d { InsertedCounts(r, x); }
  }

  /** Inserting a present element (live or deleted) creates no node: only a flag may change. */
  lemma {:induction false} InsertedPresentKeepsShape(t: Tree, x: int)
    requires IsBST(t) && x in Elements(t)
    ensures SameShape(Inserted(t, x), t)
  {
    match t
    case Node(l, d, _, r) =>
      SameShapeRefl(l);
      SameShapeRefl(r);
      if x < d { InsertedPresentKeepsShape(l, x); } else if x > d { InsertedPresentKeepsShape(r, x); }
  }

  /** Inserting a live element changes nothing. */
  lemma {:induction false} InsertedLiveUnchanged(t: Tree, x: int)
    requires IsBST(t) && x in LiveSet(t)
    ensures Inserted(t, x) == t
  {
    match t
    case Node(l, d, _, r) =>
      LiveSubset(l);
      LiveSubset(r);
      if x < d { InsertedLiveUnchanged(l, x); } else if x > d { InsertedLiveUnchanged(r, x); }
  }

  lemma {:induction false} SameShapeRefl(t: Tree)
    ensures SameShape(t, t)
  {
    match t
    case Leaf =>
    case Node(l, _, _, r) => SameShapeRefl(l); SameShapeRefl(r);
  }

  // ---------------------------------------------------------------------
  // remove

  /** remove only sets a flag: the shape, hence every node and the ordering, is untouched. */
  lemma {:induction false} MarkDeletedKeepsShape(t: Tree, x: int)
    ensures SameShape(MarkDeleted(t, x), t)
  {
    match t
    case Leaf =>
    case Node(l, d, _, r) =>
      SameShapeRefl(l);
      SameShapeRefl(r);
      if x < d { MarkDeletedKeepsShape(l, x); } else if x > d { MarkDeletedKeepsShape(r, x); }
  }

  /**
   * When find(root, x) succeeds the live count drops by one; when it fails
   * the tree is unchanged.  Afterwards find(root, x) fails.
   */
  lemma {:induction false} MarkDeletedFound(t: Tree, x: int)
    ensures Find(t, x).Node? ==> SoftCount(MarkDeleted(t, x)) == SoftCount(t) - 1
    ensures Find(t, x).Leaf? ==> MarkDeleted(t, x) == t
    ensures Find(MarkDeleted(t, x), x).Leaf?
  {
    match t
    case Leaf =>
    case Node(l, d, _, r) =>
      if x < d { MarkDeletedFound(l, x); } else if x > d { MarkDeletedFound(r, x); }
  }

  /** Under the ordering invariant remove takes exactly x out of the live elements. */
  lemma {:induction false} MarkDeletedLive(t: Tree, x: int)
    requires IsBST(t)
    ensures LiveSet(MarkDeleted(t, x)) == LiveSet(t) - {x}
  {
    match t
    case Leaf =>
    case Node(l, d, _, r) =>
      LiveSubset(l);
      LiveSubset(r);
      if x < d { MarkDeletedLive(l, x); } else if x > d { MarkDeletedLive(r, x); }
  }

  /** A second remove of the same element changes nothing. */
  lemma {:induction false} MarkDeletedIdempotent(t: Tree, x: int)
    ensures MarkDeleted(MarkDeleted(t, x), x) == MarkDeleted(t, x)
  {
    match t
    case Leaf =>
    case Node(l, d, _, r) =>
      if x < d { MarkDeletedIdempotent(l, x); } else if x > d { MarkDeletedIdempotent(r, x); }
  }

  /**
   * insert(x); remove(x); insert(x) resurrects the very node the first
   * insert left: the tree after the cycle is the tree after the first insert.
   */
  lemma {:induction false} InsertRemoveInsert(t: Tree, x: int)
    ensures Inserted(MarkDeleted(Inserted(t, x), x), x) == Inserted(t, x)
  {
    match t
    case Leaf =>
    case Node(l, d, _, r) =>
      if x < d { InsertRemoveInsert(l, x); } else if x > d { InsertRemoveInsert(r, x); }
  }
}
