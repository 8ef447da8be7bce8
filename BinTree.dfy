/**
 * The binary tree of compress/CharBinTree.java: every node carries an
 * optional (nullable) string label, an optional (nullable) integer weight and
 * two optional children. Its fields are set only by the constructors, so the
 * tree is a value; its queries are functions over it.
 */
module BinTree {
  import opened Wrappers

  /** One node: `charData`, `frequency`, `left`, `right`, each possibly null. */
  datatype CharBinTree = CharBinTree(charData: Option<string>, frequency: Option<int>,
                                     left: Option<CharBinTree>, right: Option<CharBinTree>)

  /** The leaf constructors: both children are null. */
  function Leaf(charData: Option<string>, frequency: Option<int>): (t: CharBinTree)
    ensures IsLeaf(t) && Size(t) == 1 && Height(t) == 0
    ensures Fringe(t) == [charData]
    ensures t.charData == charData && t.frequency == frequency
  {
    CharBinTree(charData, frequency, None, None)
  }

  /** The inner-node constructors: the given label, weight and children are
      stored as they are; the node's size and leaves are those of its
      children put together. */
  function Inner(charData: Option<string>, frequency: Option<int>,
                 left: Option<CharBinTree>, right: Option<CharBinTree>): (t: CharBinTree)
    ensures t.charData == charData && t.frequency == frequency
    ensures t.left == left && t.right == right
    ensures IsInner(t) <==> left.Some? || right.Some?
    ensures left.Some? && right.Some? ==>
              Size(t) == 1 + Size(left.value) + Size(right.value)
              && Fringe(t) == Fringe(left.value) + Fringe(right.value)
  {
    CharBinTree(charData, frequency, left, right)
  }

  /** hasLeft: the left child is not null. */
  function HasLeft(t: CharBinTree): (b: bool)
    ensures b <==> t.left != None
  {
    t.left.Some?
  }

  /** hasRight: the right child is not null. */
  function HasRight(t: CharBinTree): (b: bool)
    ensures b <==> t.right != None
  {
    t.right.Some?
  }

  /** isLeaf: holds exactly when both children are absent. */
  function IsLeaf(t: CharBinTree): (b: bool)
    ensures b <==> t.left == None && t.right == None
  {
    !HasLeft(t) && !HasRight(t)
  }

  /** A node is inner when at least one child is present: exactly when it is not a leaf. */
  function IsInner(t: CharBinTree): (b: bool)
    ensures b == !IsLeaf(t)
  {
    HasLeft(t) || HasRight(t)
  }

  /** Math.max on ints. */
  function Max(a: int, b: int): int { if a >= b then a else b }

  /** Number of nodes: one for the node plus the sizes of the children present. */
  function Size(t: CharBinTree): (r: int)
    ensures r >= 1
    ensures r == 1 <==> IsLeaf(t)
  {
    1 + (if HasLeft(t) then Size(t.left.value) else 0)
      + (if HasRight(t) then Size(t.right.value) else 0)
  }

  /** Length of the longest downward path: 0 at a leaf, one more than the
      highest child at an inner node; always below the node count. */
  function Height(t: CharBinTree): (r: int)
    ensures 0 <= r < Size(t)
    ensures r == 0 <==> IsLeaf(t)
  {
    if IsLeaf(t) then 0
    else
      var h := if HasLeft(t) then Max(0, Height(t.left.value)) else 0;
      var h' := if HasRight(t) then Max(h, Height(t.right.value)) else h;
      h' + 1
  }

  /** The labels of the leaves, from left to right. A leaf's label may be null. */
  function Fringe(t: CharBinTree): (f: seq<Option<string>>)
    ensures 1 <= |f| <= Size(t)
  {
    if IsLeaf(t) then [t.charData]
    else
      var l := if HasLeft(t) then Fringe(t.left.value) else [];
      var r := if HasRight(t) then Fringe(t.right.value) else [];
      l + r
  }

  /** Number of leaf nodes in the tree. */
  function LeafCount(t: CharBinTree): nat
  {
    if IsLeaf(t) then 1
    else
      var l := if HasLeft(t) then LeafCount(t.left.value) else 0;
      var r := if HasRight(t) then LeafCount(t.right.value) else 0;
      l + r
  }

  /** The fringe has one entry per leaf. */
  lemma {:induction false} FringeHasOneEntryPerLeaf(t: CharBinTree)
    ensures |Fringe(t)| == LeafCount(t)
  {
    if HasLeft(t) { FringeHasOneEntryPerLeaf(t.left.value); }
    if HasRight(t) { FringeHasOneEntryPerLeaf(t.right.value); }
  }

  /** addToFringe: appends the leaves of `t` to the accumulated list. */
  method AddToFringe(t: CharBinTree, fringe: seq<Option<string>>) returns (f: seq<Option<string>>)
    ensures f == fringe + Fringe(t)
    decreases t
  {
    if IsLeaf(t) {
      f := fringe + [t.charData];
    } else {
      ghost var l := if HasLeft(t) then Fringe(t.left.value) else [];
      ghost var r := if HasRight(t) then Fringe(t.right.value) else [];
      f := fringe;
      if HasLeft(t) {
        f := AddToFringe(t.left.value, f);
      }
      assert f == fringe + l;
      if HasRight(t) {
        f := AddToFringe(t.right.value, f);
      }
      ConcatAssoc(fringe, l, r);
    }
  }

  /** A solver hint, not a result: concatenation regroups. */
  lemma ConcatAssoc<T>(a: seq<T>, b: seq<T>, c: seq<T>)
    ensures (a + b) + c == a + (b + c)
  {
  }

  /** fringe(): starts from an empty list and collects the leaves. */
  method CollectFringe(t: CharBinTree) returns (f: seq<Option<string>>)
    ensures f == Fringe(t)
  {
    f := AddToFringe(t, []);
  }

  /** Every node of the tree has a non-null label and a non-null weight. */
  predicate AllPresent(t: CharBinTree)
  {
    && t.charData.Some? && t.frequency.Some?
    && (HasLeft(t) ==> AllPresent(t.left.value))
    && (HasRight(t) ==> AllPresent(t.right.value))
  }

  /** equalsTree: same child structure, labels and weights, compared from the
      receiver `t1`. Dereferencing a null label or weight of `t1` throws; a null
      on the side of `t2` only makes `equals` false. */
  function EqualsTree(t1: CharBinTree, t2: CharBinTree): (r: Result<bool>)
    ensures HasLeft(t1) != HasLeft(t2) || HasRight(t1) != HasRight(t2) ==> r == Ok(false)
    ensures r == Ok(true) ==> t1 == t2
    ensures r.Err? ==> !AllPresent(t1)
    decreases t1
  {
    if HasLeft(t1) != HasLeft(t2) || HasRight(t1) != HasRight(t2) then Ok(false)
    else if t1.charData.None? then Err(NullPointerException)
    else if t2.charData != t1.charData then Ok(false)
    else if t1.frequency.None? then Err(NullPointerException)
    else if t2.frequency != t1.frequency then Ok(false)
    else
      var l := if HasLeft(t1) then EqualsTree(t1.left.value, t2.left.value) else Ok(true);
      if l.Err? then l
      else if !l.value then Ok(false)
      else if HasRight(t1) then EqualsTree(t1.right.value, t2.right.value)
      else Ok(true)
  }

  /** With every label and weight of the receiver present, equalsTree never
      throws and is true exactly for identical shape, labels and weights. */
  lemma {:induction false} EqualsTreeIsEquality(t1: CharBinTree, t2: CharBinTree)
    requires AllPresent(t1)
    ensures EqualsTree(t1, t2) == Ok(t1 == t2)
  {
    if HasLeft(t1) && HasLeft(t2) {
      EqualsTreeIsEquality(t1.left.value, t2.left.value);
    }
    if HasRight(t1) && HasRight(t2) {
      EqualsTreeIsEquality(t1.right.value, t2.right.value);
    }
  }

  lemma EqualsTreeReflexive(t: CharBinTree)
    requires AllPresent(t)
    ensures EqualsTree(t, t) == Ok(true)
  {
    EqualsTreeIsEquality(t, t);
  }

  lemma EqualsTreeSymmetric(t1: CharBinTree, t2: CharBinTree)
    requires AllPresent(t1) && AllPresent(t2)
    ensures EqualsTree(t1, t2) == EqualsTree(t2, t1)
  {
    EqualsTreeIsEquality(t1, t2);
    EqualsTreeIsEquality(t2, t1);
  }
}
