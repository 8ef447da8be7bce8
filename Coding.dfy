/**
 * Reference definitions for compress/Compression.java: the shape of the trees
 * the priority queue holds, the queue's total weight and leaves, the code
 * table that pathHelper builds, the bit sequence compressFile writes, and the
 * cursor machine that decompress runs, with the properties proved about them.
 */
module Coding {
  import opened Wrappers
  import opened BinTree
  import opened JavaText

  // ---------------------------------------------------------------- tree shape

  /** A tree built by charQueue and createTree: every node has a weight;
      leaves carry a label; an inner node has no label, both children, and
      the sum of their weights. */
  predicate HuffmanShaped(t: CharBinTree)
    decreases t
  {
    && t.frequency.Some?
    && if IsLeaf(t) then t.charData.Some?
       else
         && t.charData.None? && HasLeft(t) && HasRight(t)
         && HuffmanShaped(t.left.value) && HuffmanShaped(t.right.value)
         && t.frequency.value == t.left.value.frequency.value + t.right.value.frequency.value
  }

  /** Every tree in the queue is well shaped. */
  predicate AllShaped(q: seq<CharBinTree>)
  {
    forall t :: t in q ==> HuffmanShaped(t)
  }

  /** Every node has no child or both children. */
  predicate Full(t: CharBinTree)
    decreases t
  {
    IsLeaf(t) || (HasLeft(t) && HasRight(t) && Full(t.left.value) && Full(t.right.value))
  }

  /** Every leaf carries a non-null label. */
  predicate LabelledLeaves(t: CharBinTree)
    decreases t
  {
    if IsLeaf(t) then t.charData.Some?
    else (HasLeft(t) ==> LabelledLeaves(t.left.value)) && (HasRight(t) ==> LabelledLeaves(t.right.value))
  }

  lemma {:induction false} HuffmanShapedIsFullAndLabelled(t: CharBinTree)
    requires HuffmanShaped(t)
    ensures Full(t) && LabelledLeaves(t)
  {
    if !IsLeaf(t) {
      HuffmanShapedIsFullAndLabelled(t.left.value);
      HuffmanShapedIsFullAndLabelled(t.right.value);
    }
  }

  /** A full inner node has at least two leaves. */
  lemma FullInnerHasTwoLeaves(t: CharBinTree)
    requires Full(t) && !IsLeaf(t)
    ensures |Fringe(t)| >= 2
  {
    assert |Fringe(t.left.value)| >= 1 && |Fringe(t.right.value)| >= 1;
  }

  // ------------------------------------------------------------ priority queue

  function Weight(t: CharBinTree): int
    requires t.frequency.Some?
  {
    t.frequency.value
  }

  predicate Weighted(q: seq<CharBinTree>)
  {
    forall i :: 0 <= i < |q| ==> q[i].frequency.Some?
  }

  lemma ShapedIsWeighted(q: seq<CharBinTree>)
    requires AllShaped(q)
    ensures Weighted(q)
  {
    forall i | 0 <= i < |q|
      ensures q[i].frequency.Some?
    {
      assert q[i] in q;
    }
  }

  /** Sum of the weights of the trees in the queue. */
  function TotalWeight(q: seq<CharBinTree>): int
    requires Weighted(q)
  {
    if q == [] then 0 else Weight(q[0]) + TotalWeight(q[1..])
  }

  /** The leaves of all trees in the queue. */
  function QueueFringe(q: seq<CharBinTree>): seq<Option<string>>
  {
    if q == [] then [] else Fringe(q[0]) + QueueFringe(q[1..])
  }

  lemma {:induction false} TotalWeightConcat(a: seq<CharBinTree>, b: seq<CharBinTree>)
    requires Weighted(a) && Weighted(b)
    ensures Weighted(a + b)
    ensures TotalWeight(a + b) == TotalWeight(a) + TotalWeight(b)
  {
    if a != [] {
      assert (a + b)[1..] == a[1..] + b;
      TotalWeightConcat(a[1..], b);
    } else {
      assert a + b == b;
    }
  }

  lemma {:induction false} QueueFringeConcat(a: seq<CharBinTree>, b: seq<CharBinTree>)
    ensures QueueFringe(a + b) == QueueFringe(a) + QueueFringe(b)
  {
    if a != [] {
      assert (a + b)[1..] == a[1..] + b;
      QueueFringeConcat(a[1..], b);
    } else {
      assert a + b == b;
    }
  }

  /** Taking the tree at index i out of the queue removes its weight from the
      total and its leaves from the queue's leaves. */
  lemma RemoveAt(q: seq<CharBinTree>, i: int, r: seq<CharBinTree>)
    requires Weighted(q) && 0 <= i < |q| && r == q[..i] + q[i + 1..]
    ensures Weighted(r)
    ensures TotalWeight(r) + Weight(q[i]) == TotalWeight(q)
    ensures multiset(QueueFringe(r)) + multiset(Fringe(q[i])) == multiset(QueueFringe(q))
  {
    var a, x, b := q[..i], [q[i]], q[i + 1..];
    assert q == a + (x + b);
    RemoveWeightAt(a, x, b);
    RemoveFringeAt(a, x, b);
  }

  /** The queue after taking out index i is one shorter and holds the same
      trees less that one. */
  lemma RemoveOne<T>(q: seq<T>, i: int, r: seq<T>)
    requires 0 <= i < |q| && r == q[..i] + q[i + 1..]
    ensures |r| == |q| - 1 && multiset(r) == multiset(q) - multiset{q[i]}
  {
    assert q == q[..i] + ([q[i]] + q[i + 1..]);
  }

  lemma RemoveWeightAt(a: seq<CharBinTree>, x: seq<CharBinTree>, b: seq<CharBinTree>)
    requires Weighted(a + (x + b)) && |x| == 1
    ensures Weighted(a + b) && x[0].frequency.Some?
    ensures TotalWeight(a + b) + Weight(x[0]) == TotalWeight(a + (x + b))
  {
    assert Weighted(a) by { forall j | 0 <= j < |a| ensures a[j].frequency.Some? { assert a[j] == (a + (x + b))[j]; } }
    assert Weighted(x + b) by { forall j | 0 <= j < |x + b| ensures (x + b)[j].frequency.Some? { assert (x + b)[j] == (a + (x + b))[|a| + j]; } }
    assert Weighted(b) by { forall j | 0 <= j < |b| ensures b[j].frequency.Some? { assert b[j] == (x + b)[1 + j]; } }
    assert Weighted(x) by { assert x[0] == (x + b)[0]; }
    TotalWeightConcat(a, b);
    TotalWeightConcat(x, b);
    TotalWeightConcat(a, x + b);
    assert TotalWeight(x) == Weight(x[0]);
  }

  lemma RemoveFringeAt(a: seq<CharBinTree>, x: seq<CharBinTree>, b: seq<CharBinTree>)
    requires |x| == 1
    ensures multiset(QueueFringe(a + b)) + multiset(Fringe(x[0])) == multiset(QueueFringe(a + (x + b)))
  {
    QueueFringeConcat(a, b);
    QueueFringeConcat(x, b);
    QueueFringeConcat(a, x + b);
    assert QueueFringe(x) == Fringe(x[0]) by { assert x[1..] == []; }
  }

  /** t is a tree of least weight in the queue q. */
  predicate Lightest(t: CharBinTree, q: seq<CharBinTree>)
  {
    t in q && t.frequency.Some? && forall k :: 0 <= k < |q| ==> q[k].frequency.Some? && t.frequency.value <= q[k].frequency.value
  }

  /** A non-empty queue has an element of least weight: what remove() returns. */
  lemma {:induction false} LightestExists(q: seq<CharBinTree>)
    requires Weighted(q) && |q| > 0
    ensures exists i :: 0 <= i < |q| && Lightest(q[i], q)
  {
    if |q| == 1 {
      assert Lightest(q[0], q);
    } else {
      var rest := q[1..];
      assert Weighted(rest);
      LightestExists(rest);
      var m :| 0 <= m < |rest| && Lightest(rest[m], rest);
      var i := if Weight(q[0]) <= Weight(rest[m]) then 0 else m + 1;
      forall k | 0 <= k < |q|
        ensures Weight(q[i]) <= Weight(q[k])
      {
        if k > 0 { assert q[k] == rest[k - 1]; }
      }
      assert Lightest(q[i], q);
    }
  }

  /** What remove() on the priority queue promises, for a lightest index i:
      the rest of the queue keeps its shape, the removed tree weighs no more
      than any tree of the queue, and weights and leaves are accounted for. */
  lemma TakeLightest(q: seq<CharBinTree>, i: int, r: seq<CharBinTree>)
    requires AllShaped(q)
    requires Weighted(q) && 0 <= i < |q| && r == q[..i] + q[i + 1..]
    requires Lightest(q[i], q)
    ensures AllShaped(r)
    ensures Weighted(r)
    ensures |r| == |q| - 1 && multiset(r) == multiset(q) - multiset{q[i]}
    ensures TotalWeight(r) + Weight(q[i]) == TotalWeight(q)
    ensures multiset(QueueFringe(r)) + multiset(Fringe(q[i])) == multiset(QueueFringe(q))
  {
    RemoveAt(q, i, r);
    RemoveOne(q, i, r);
    forall t | t in r
      ensures HuffmanShaped(t)
    {
      assert t in multiset(r);
    }
  }

  /** One round of createTree takes t1 and then t2 out of q0 and puts back
      the inner node m over them: the queue stays well shaped and keeps its
      total weight and its leaves. */
  lemma MergeInto(q0: seq<CharBinTree>, t1: CharBinTree, q1: seq<CharBinTree>, t2: CharBinTree,
                  q2: seq<CharBinTree>, m: CharBinTree)
    requires Weighted(q0) && Weighted(q1) && Weighted(q2) && AllShaped(q2)
    requires HuffmanShaped(t1) && HuffmanShaped(t2)
    requires TotalWeight(q1) + Weight(t1) == TotalWeight(q0)
    requires TotalWeight(q2) + Weight(t2) == TotalWeight(q1)
    requires multiset(QueueFringe(q1)) + multiset(Fringe(t1)) == multiset(QueueFringe(q0))
    requires multiset(QueueFringe(q2)) + multiset(Fringe(t2)) == multiset(QueueFringe(q1))
    requires m == CharBinTree(None, Some(t1.frequency.value + t2.frequency.value), Some(t1), Some(t2))
    ensures AllShaped(q2 + [m]) && Weighted(q2 + [m])
    ensures TotalWeight(q2 + [m]) == TotalWeight(q0)
    ensures multiset(QueueFringe(q2 + [m])) == multiset(QueueFringe(q0))
  {
    PutBack(q2, t1, t2, m);
    var a, f1, f2 := multiset(QueueFringe(q2)), multiset(Fringe(t1)), multiset(Fringe(t2));
    MultisetSwap(a, f1, f2);
    Balance(TotalWeight(q0), TotalWeight(q1), TotalWeight(q2), TotalWeight(q2 + [m]), Weight(t1), Weight(t2));
  }

  /** A solver hint, not a result: the weights of one round balance. */
  lemma Balance(w0: int, w1: int, w2: int, w: int, a: int, b: int)
    requires w1 + a == w0 && w2 + b == w1 && w == w2 + a + b
    ensures w == w0
  {
  }

  /** A solver hint, not a result: multiset union regroups. */
  lemma MultisetSwap<T>(a: multiset<T>, b: multiset<T>, c: multiset<T>)
    ensures a + b + c == (a + c) + b
  {
  }

  /** Appending the inner node over t1 and t2 adds their weights and their
      leaves to the queue. */
  lemma PutBack(q: seq<CharBinTree>, t1: CharBinTree, t2: CharBinTree, m: CharBinTree)
    requires Weighted(q) && AllShaped(q) && HuffmanShaped(t1) && HuffmanShaped(t2)
    requires m == CharBinTree(None, Some(t1.frequency.value + t2.frequency.value), Some(t1), Some(t2))
    ensures AllShaped(q + [m]) && Weighted(q + [m])
    ensures TotalWeight(q + [m]) == TotalWeight(q) + Weight(t1) + Weight(t2)
    ensures multiset(QueueFringe(q + [m])) == multiset(QueueFringe(q)) + multiset(Fringe(t1)) + multiset(Fringe(t2))
  {
    MergedNode(t1, t2, m);
    ShapedSnoc(q, m);
    SingletonQueue(m);
    TotalWeightConcat(q, [m]);
    QueueFringeConcat(q, [m]);
  }

  /** The inner node over two trees: well shaped, weighing their sum, with
      the left tree's leaves followed by the right tree's. */
  lemma MergedNode(t1: CharBinTree, t2: CharBinTree, m: CharBinTree)
    requires HuffmanShaped(t1) && HuffmanShaped(t2)
    requires m == CharBinTree(None, Some(t1.frequency.value + t2.frequency.value), Some(t1), Some(t2))
    ensures HuffmanShaped(m) && Weight(m) == Weight(t1) + Weight(t2)
    ensures Fringe(m) == Fringe(t1) + Fringe(t2)
  {
  }

  /** A queue holding one tree. */
  lemma SingletonQueue(t: CharBinTree)
    requires t.frequency.Some?
    ensures Weighted([t]) && TotalWeight([t]) == Weight(t) && QueueFringe([t]) == Fringe(t)
  {
    assert [t][1..] == [];
  }

  // ------------------------------------------------------------ seeding leaves

  /** The leaves charQueue adds: one per key, weighted by the key's count in `words`. */
  function LeavesFor(keys: seq<string>, words: seq<string>): seq<CharBinTree>
  {
    seq(|keys|, i requires 0 <= i < |keys| => Leaf(Some(keys[i]), Some(multiset(words)[keys[i]])))
  }

  /** Seeding one more key appends its leaf. */
  lemma LeavesForSnoc(q: seq<CharBinTree>, keys: seq<string>, key: string, words: seq<string>)
    ensures q + LeavesFor(keys + [key], words) == (q + LeavesFor(keys, words)) + [Leaf(Some(key), Some(multiset(words)[key]))]
  {
    assert LeavesFor(keys + [key], words) == LeavesFor(keys, words) + [Leaf(Some(key), Some(multiset(words)[key]))];
  }

  /** Appending a well-shaped tree to a queue of well-shaped trees. */
  lemma ShapedSnoc(q: seq<CharBinTree>, t: CharBinTree)
    requires AllShaped(q)
    requires HuffmanShaped(t)
    ensures AllShaped(q + [t])
  {
  }

  /** Seeded leaves are well shaped. */
  lemma SeededShaped(q: seq<CharBinTree>, keys: seq<string>, words: seq<string>)
    requires AllShaped(q)
    ensures AllShaped(q + LeavesFor(keys, words))
  {
    LeavesForTotals(keys, words);
  }

  function AsLabels(keys: seq<string>): seq<Option<string>>
  {
    seq(|keys|, i requires 0 <= i < |keys| => Some(keys[i]))
  }

  /** Sum over the keys of each key's number of occurrences in `words`. */
  function CountSum(keys: seq<string>, words: seq<string>): int
  {
    if keys == [] then 0 else multiset(words)[keys[0]] + CountSum(keys[1..], words)
  }

  lemma {:induction false} CountSumCons(keys: seq<string>, w: string, rest: seq<string>)
    requires Distinct(keys)
    ensures CountSum(keys, [w] + rest) == CountSum(keys, rest) + (if w in keys then 1 else 0)
  {
    if keys != [] {
      assert Distinct(keys[1..]);
      CountSumCons(keys[1..], w, rest);
      assert multiset([w] + rest)[keys[0]] == multiset(rest)[keys[0]] + (if w == keys[0] then 1 else 0);
      assert w in keys <==> w == keys[0] || w in keys[1..];
      if w == keys[0] {
        assert w !in keys[1..];
      }
    }
  }

  /** With distinct keys covering every word, the counts add up to the number
      of words: the weights of the seeded leaves sum to the text length. */
  lemma {:induction false} CountSumIsWordCount(keys: seq<string>, words: seq<string>)
    requires Distinct(keys)
    requires forall w :: w in words ==> w in keys
    ensures CountSum(keys, words) == |words|
  {
    if words == [] {
      CountSumOfNothing(keys);
    } else {
      assert words == [words[0]] + words[1..];
      CountSumCons(keys, words[0], words[1..]);
      CountSumIsWordCount(keys, words[1..]);
    }
  }

  lemma {:induction false} CountSumOfNothing(keys: seq<string>)
    ensures CountSum(keys, []) == 0
  {
    if keys != [] {
      CountSumOfNothing(keys[1..]);
    }
  }

  lemma {:induction false} LeavesForTotals(keys: seq<string>, words: seq<string>)
    ensures Weighted(LeavesFor(keys, words))
    ensures TotalWeight(LeavesFor(keys, words)) == CountSum(keys, words)
    ensures QueueFringe(LeavesFor(keys, words)) == AsLabels(keys)
    ensures forall i :: 0 <= i < |keys| ==> HuffmanShaped(LeavesFor(keys, words)[i])
  {
    var q := LeavesFor(keys, words);
    if keys != [] {
      assert q[1..] == LeavesFor(keys[1..], words);
      assert AsLabels(keys) == [Some(keys[0])] + AsLabels(keys[1..]);
      LeavesForTotals(keys[1..], words);
    }
  }

  /** The queue charQueue leaves behind: the former queue plus one leaf per
      key, adding the number of words to the total weight and the keys to the
      leaves. */
  lemma SeededQueue(q: seq<CharBinTree>, keys: seq<string>, words: seq<string>)
    requires Weighted(q) && Ascending(keys) && |words| >= 1
    requires forall w :: w in keys <==> w in words
    ensures Weighted(q + LeavesFor(keys, words)) && |q + LeavesFor(keys, words)| >= 1
    ensures TotalWeight(q + LeavesFor(keys, words)) == TotalWeight(q) + |words|
    ensures multiset(QueueFringe(q + LeavesFor(keys, words))) == multiset(QueueFringe(q)) + multiset(AsLabels(keys))
  {
    var seeded := LeavesFor(keys, words);
    LeavesForTotals(keys, words);
    AscendingIsDistinct(keys);
    CountSumIsWordCount(keys, words);
    TotalWeightConcat(q, seeded);
    QueueFringeConcat(q, seeded);
    assert words[0] in keys;
  }

  /** A queue of one tree weighs what that tree weighs and has its leaves. */
  lemma SingleQueue(q: seq<CharBinTree>)
    requires Weighted(q) && |q| == 1
    ensures TotalWeight(q) == Weight(q[0]) && QueueFringe(q) == Fringe(q[0])
  {
    assert q[1..] == [];
  }

  /** A sequence is free of duplicates exactly when no element occurs in it twice. */
  lemma {:induction false} DistinctMultiplicity<T>(s: seq<T>)
    ensures Distinct(s) <==> forall x :: multiset(s)[x] <= 1
  {
    if s != [] {
      var r := s[1..];
      DistinctMultiplicity(r);
      assert s == [s[0]] + r;
      DistinctCons(s);
      var ms, mr := multiset(s), multiset(r);
      assert ms == multiset{s[0]} + mr;
      if Distinct(s) {
        assert mr[s[0]] == 0;
        forall x
          ensures ms[x] <= 1
        {
          assert ms[x] == mr[x] + (if x == s[0] then 1 else 0);
        }
      }
      if forall x :: ms[x] <= 1 {
        forall x
          ensures mr[x] <= 1
        {
          assert ms[x] >= mr[x];
        }
        assert ms[s[0]] == mr[s[0]] + 1;
        assert s[0] !in r;
      }
    }
  }

  lemma DistinctCons<T>(s: seq<T>)
    requires s != []
    ensures Distinct(s) <==> Distinct(s[1..]) && s[0] !in s[1..]
  {
    var r := s[1..];
    if Distinct(s) {
      forall i, j | 0 <= i < j < |r|
        ensures r[i] != r[j]
      {
        assert r[i] == s[i + 1] && r[j] == s[j + 1];
      }
      forall j | 0 <= j < |r|
        ensures r[j] != s[0]
      {
        assert r[j] == s[j + 1];
      }
    }
    if Distinct(r) && s[0] !in r {
      forall i, j | 0 <= i < j < |s|
        ensures s[i] != s[j]
      {
        assert s[j] == r[j - 1];
        if i > 0 { assert s[i] == r[i - 1]; }
      }
    }
  }

  /** Distinct keys give distinct labels. */
  lemma AsLabelsDistinct(keys: seq<string>)
    requires Distinct(keys)
    ensures Distinct(AsLabels(keys))
  {
    forall i, j | 0 <= i < j < |keys|
      ensures AsLabels(keys)[i] != AsLabels(keys)[j]
    {
    }
  }

  /** A tree whose leaves are a permutation of ascending keys has distinct
      leaf labels. */
  lemma {:induction false} PermutedKeysDistinct(root: CharBinTree, keys: seq<string>)
    requires Ascending(keys) && multiset(Fringe(root)) == multiset(AsLabels(keys))
    ensures Distinct(Fringe(root))
  {
    AscendingIsDistinct(keys);
    AsLabelsDistinct(keys);
    DistinctMultiplicity(AsLabels(keys));
    DistinctMultiplicity(Fringe(root));
  }

  // ---------------------------------------------------------------- code table

  /** The code table built by pathHelper from `path`: a leaf maps its label to
      the path so far; the left subtree extends it with '0' and the right one
      with '1', entries written later overriding earlier ones. */
  function Codes(t: CharBinTree, path: string): (table: map<string, string>)
    requires LabelledLeaves(t)
    ensures table.Keys != {}
    decreases t
  {
    if IsLeaf(t) then
      assert t.charData.value in map[t.charData.value := path];
      map[t.charData.value := path]
    else
      var l := if HasLeft(t) then Codes(t.left.value, path + "0") else map[];
      var r := if HasRight(t) then Codes(t.right.value, path + "1") else map[];
      l + r
  }

  /** Writing a leaf's entry into a table is adding that leaf's codes. */
  lemma LeafCodes(table: map<string, string>, t: CharBinTree, path: string)
    requires IsLeaf(t) && t.charData.Some?
    ensures table[t.charData.value := path] == table + Codes(t, path)
  {
  }

  /** A solver hint, not a result: codes added to an empty table are the table. */
  lemma NoEarlierCodes(codes: map<string, string>)
    ensures map[] + codes == codes
  {
  }

  /** Adding the left subtree's codes, then the right subtree's, is adding
      the inner node's codes. */
  lemma InnerCodes(table: map<string, string>, t: CharBinTree, path: string,
                   l: map<string, string>, r: map<string, string>)
    requires !IsLeaf(t) && LabelledLeaves(t)
    requires l == if HasLeft(t) then Codes(t.left.value, path + "0") else map[]
    requires r == if HasRight(t) then Codes(t.right.value, path + "1") else map[]
    ensures (table + l) + r == table + Codes(t, path)
  {
    assert Codes(t, path) == l + r;
  }

  /** `q` spells the way from `t` down to a leaf labelled `k`: '0' for a left
      step, '1' for a right step. */
  predicate LeafPath(t: CharBinTree, q: string, k: string)
    decreases |q|
  {
    if q == [] then IsLeaf(t) && t.charData == Some(k)
    else if q[0] == '0' then HasLeft(t) && LeafPath(t.left.value, q[1..], k)
    else q[0] == '1' && HasRight(t) && LeafPath(t.right.value, q[1..], k)
  }

  /** The table has an entry for exactly the labels on the fringe. */
  lemma {:induction false} CodesKeys(t: CharBinTree, path: string)
    requires LabelledLeaves(t)
    ensures forall k :: k in Codes(t, path) <==> Some(k) in Fringe(t)
  {
    if !IsLeaf(t) {
      if HasLeft(t) { CodesKeys(t.left.value, path + "0"); }
      if HasRight(t) { CodesKeys(t.right.value, path + "1"); }
    }
  }

  /** Every entry is the path so far followed by the way down to a leaf that
      carries that entry's label. */
  lemma {:induction false} CodesFollowLeafPaths(t: CharBinTree, path: string)
    requires LabelledLeaves(t)
    ensures forall k :: k in Codes(t, path) ==>
              |path| <= |Codes(t, path)[k]| && Codes(t, path)[k][..|path|] == path
              && LeafPath(t, Codes(t, path)[k][|path|..], k)
  {
    var table := Codes(t, path);
    if IsLeaf(t) {
      assert table[t.charData.value][|path|..] == [];
    } else {
      forall k | k in table
        ensures |path| <= |table[k]| && table[k][..|path|] == path && LeafPath(t, table[k][|path|..], k)
      {
        if HasRight(t) && k in Codes(t.right.value, path + "1") {
          CodesFollowLeafPaths(t.right.value, path + "1");
          assert table[k] == Codes(t.right.value, path + "1")[k];
          StepDown(t, path, '1', table[k], k);
        } else {
          assert HasLeft(t) && k in Codes(t.left.value, path + "0");
          assert table[k] == Codes(t.left.value, path + "0")[k];
          CodesFollowLeafPaths(t.left.value, path + "0");
          StepDown(t, path, '0', table[k], k);
        }
      }
    }
  }

  /** A code of the child reached by bit `b`, which starts with the path so
      far and `b`, leads from the parent to the same leaf. */
  lemma StepDown(t: CharBinTree, path: string, b: char, c: string, k: string)
    requires b == '0' ==> HasLeft(t)
    requires b != '0' ==> b == '1' && HasRight(t)
    requires |path + [b]| <= |c| && c[..|path + [b]|] == path + [b]
    requires LeafPath(if b == '0' then t.left.value else t.right.value, c[|path + [b]|..], k)
    ensures |path| <= |c| && c[..|path|] == path && LeafPath(t, c[|path|..], k)
  {
    assert c[..|path|] == (path + [b])[..|path|] == path;
    assert c[|path|..][0] == b && c[|path|..][1..] == c[|path + [b]|..];
  }

  lemma {:induction false} LeafPathInFringe(t: CharBinTree, q: string, k: string)
    requires LeafPath(t, q, k)
    ensures Some(k) in Fringe(t)
    decreases |q|
  {
    if q != [] {
      if q[0] == '0' {
        LeafPathInFringe(t.left.value, q[1..], k);
      } else {
        LeafPathInFringe(t.right.value, q[1..], k);
      }
    }
  }

  /** When the labels on the fringe are distinct, every leaf's label is mapped
      to exactly the path down to that leaf. */
  lemma {:induction false} LeafPathIsCode(t: CharBinTree, path: string, q: string, k: string)
    requires LabelledLeaves(t) && Distinct(Fringe(t)) && LeafPath(t, q, k)
    ensures k in Codes(t, path) && Codes(t, path)[k] == path + q
    decreases |q|
  {
    if q != [] {
      DistinctChildren(t);
      if q[0] == '0' {
        LeafPathIsCode(t.left.value, path + "0", q[1..], k);
        LeftCodeIsCode(t, path, q, k);
      } else {
        LeafPathIsCode(t.right.value, path + "1", q[1..], k);
        RightCodeIsCode(t, path, q, k);
      }
    }
  }

  /** The subtrees of a tree with distinct labels have distinct labels, and
      none in common. */
  lemma DistinctChildren(t: CharBinTree)
    requires !IsLeaf(t) && Distinct(Fringe(t))
    ensures HasLeft(t) ==> Distinct(Fringe(t.left.value))
    ensures HasRight(t) ==> Distinct(Fringe(t.right.value))
    ensures HasLeft(t) && HasRight(t) ==>
              forall x :: x in Fringe(t.left.value) ==> x !in Fringe(t.right.value)
  {
    var lf := if HasLeft(t) then Fringe(t.left.value) else [];
    var rf := if HasRight(t) then Fringe(t.right.value) else [];
    assert Fringe(t) == lf + rf;
    DistinctHalves(lf, rf);
  }

  /** A left child's code for k, extended by '0', is the parent's code for k. */
  lemma LeftCodeIsCode(t: CharBinTree, path: string, q: string, k: string)
    requires LabelledLeaves(t) && q != [] && q[0] == '0' && HasLeft(t) && LeafPath(t.left.value, q[1..], k)
    requires HasRight(t) ==> forall x :: x in Fringe(t.left.value) ==> x !in Fringe(t.right.value)
    requires k in Codes(t.left.value, path + "0") && Codes(t.left.value, path + "0")[k] == path + "0" + q[1..]
    ensures k in Codes(t, path) && Codes(t, path)[k] == path + q
  {
    LeafPathInFringe(t.left.value, q[1..], k);
    if HasRight(t) {
      CodesKeys(t.right.value, path + "1");
    }
    assert path + "0" + q[1..] == path + q;
  }

  /** A right child's code for k, extended by '1', is the parent's code for k. */
  lemma RightCodeIsCode(t: CharBinTree, path: string, q: string, k: string)
    requires LabelledLeaves(t) && q != [] && q[0] == '1' && HasRight(t)
    requires k in Codes(t.right.value, path + "1") && Codes(t.right.value, path + "1")[k] == path + "1" + q[1..]
    ensures k in Codes(t, path) && Codes(t, path)[k] == path + q
  {
    assert path + "1" + q[1..] == path + q;
  }

  /** The two halves of a duplicate-free sequence share no element. */
  lemma DistinctHalves<T>(a: seq<T>, b: seq<T>)
    requires Distinct(a + b)
    ensures Distinct(a) && Distinct(b)
    ensures forall x :: x in a ==> x !in b
  {
    forall i, j | 0 <= i < j < |a|
      ensures a[i] != a[j]
    {
      assert (a + b)[i] == a[i] && (a + b)[j] == a[j];
    }
    forall i, j | 0 <= i < j < |b|
      ensures b[i] != b[j]
    {
      assert (a + b)[|a| + i] == b[i] && (a + b)[|a| + j] == b[j];
    }
    forall i, j | 0 <= i < |a| && 0 <= j < |b|
      ensures a[i] != b[j]
    {
      assert (a + b)[i] == a[i] && (a + b)[|a| + j] == b[j];
    }
  }

  /** For the tree createTree builds, whose leaves are a permutation of the
      ascending keys, every leaf's label is mapped to exactly the path down to
      that leaf. */
  lemma BuiltTreeCodes(root: CharBinTree, keys: seq<string>)
    requires LabelledLeaves(root)
    requires Ascending(keys) && multiset(Fringe(root)) == multiset(AsLabels(keys))
    ensures Distinct(Fringe(root))
    ensures forall q, k :: LeafPath(root, q, k) ==> k in Codes(root, "") && Codes(root, "")[k] == q
  {
    PermutedKeysDistinct(root, keys);
    forall q, k | LeafPath(root, q, k)
      ensures k in Codes(root, "") && Codes(root, "")[k] == q
    {
      LeafPathIsCode(root, "", q, k);
      assert "" + q == q;
    }
  }

  /** No leaf path is a proper prefix of another, and equal paths lead to the
      same leaf. */
  lemma {:induction false} LeafPathsPrefixFree(t: CharBinTree, q1: string, k1: string, q2: string, k2: string)
    requires LeafPath(t, q1, k1) && LeafPath(t, q2, k2) && q1 <= q2
    ensures q1 == q2 && k1 == k2
    decreases |q1|
  {
    if q1 != [] {
      assert q2[0] == q1[0];
      if q1[0] == '0' {
        LeafPathsPrefixFree(t.left.value, q1[1..], k1, q2[1..], k2);
      } else {
        LeafPathsPrefixFree(t.right.value, q1[1..], k1, q2[1..], k2);
      }
      assert q1 == [q1[0]] + q1[1..] && q2 == [q2[0]] + q2[1..];
    }
  }

  /** The table makePath returns is prefix-free: no symbol's code is a prefix
      of another symbol's code. */
  lemma CodesPrefixFree(t: CharBinTree)
    requires LabelledLeaves(t)
    ensures var table := Codes(t, "");
            forall a, b :: a in table && b in table && a != b ==> !(table[a] <= table[b])
  {
    var table := Codes(t, "");
    CodesFollowLeafPaths(t, "");
    forall a, b | a in table && b in table && a != b
      ensures !(table[a] <= table[b])
    {
      assert table[a][0..] == table[a] && table[b][0..] == table[b];
      if table[a] <= table[b] {
        LeafPathsPrefixFree(t, table[a], a, table[b], b);
      }
    }
  }

  /** A code is as long as its leaf is deep: never longer than the height,
      and at least one bit when the root is an inner node. */
  lemma {:induction false} LeafPathDepth(t: CharBinTree, q: string, k: string)
    requires LeafPath(t, q, k)
    ensures |q| <= Height(t)
    ensures IsInner(t) ==> |q| >= 1
    decreases |q|
  {
    if q != [] {
      if q[0] == '0' {
        LeafPathDepth(t.left.value, q[1..], k);
      } else {
        LeafPathDepth(t.right.value, q[1..], k);
      }
    }
  }

  // ------------------------------------------------------------------ encoding

  /** The bits writeBit receives for one code: true exactly for '1'. */
  function Bits(code: string): seq<bool>
  {
    seq(|code|, i requires 0 <= i < |code| => code[i] == '1')
  }

  /** Every character of the text has a code. */
  predicate Encodable(text: string, codes: map<string, string>)
  {
    forall i :: 0 <= i < |text| ==> [text[i]] in codes
  }

  /** The bits of the text: the codes of its characters, in text order. */
  function Encode(text: string, codes: map<string, string>): (bits: seq<bool>)
    requires Encodable(text, codes)
    ensures text == [] ==> bits == []
    ensures (forall k :: k in codes ==> codes[k] != []) ==> |bits| >= |text|
  {
    if text == [] then [] else Bits(codes[[text[0]]]) + Encode(text[1..], codes)
  }

  /** Encoding distributes over concatenation of texts. */
  lemma {:induction false} EncodeConcat(a: string, b: string, codes: map<string, string>)
    requires Encodable(a + b, codes)
    ensures Encodable(a, codes) && Encodable(b, codes)
    ensures Encode(a + b, codes) == Encode(a, codes) + Encode(b, codes)
  {
    assert forall i :: 0 <= i < |a| ==> (a + b)[i] == a[i];
    assert forall i :: 0 <= i < |b| ==> (a + b)[|a| + i] == b[i];
    if a == [] {
      assert a + b == b;
    } else {
      assert (a + b)[1..] == a[1..] + b;
      EncodeConcat(a[1..], b, codes);
    }
  }

  /** With every code empty (a one-leaf tree), nothing is written. */
  lemma {:induction false} EncodeWithEmptyCodes(text: string, codes: map<string, string>)
    requires Encodable(text, codes)
    requires forall k :: k in codes ==> codes[k] == ""
    ensures Encode(text, codes) == []
  {
    if text != [] {
      EncodeWithEmptyCodes(text[1..], codes);
    }
  }

  // ------------------------------------------------------------------ decoding

  /** The decompress loop from cursor `cursor` over `bits`, resetting to
      `root`: for each bit, a cursor standing on a leaf first writes that
      leaf's label and jumps back to the root; then, unless it stands on a
      leaf, it steps left on false and right on true. The result is the text
      written by the loop. */
  function Run(root: CharBinTree, cursor: CharBinTree, bits: seq<bool>): (out: string)
    requires Full(root) && LabelledLeaves(root)
    requires Full(cursor) && LabelledLeaves(cursor)
    ensures bits == [] ==> out == []
    decreases |bits|
  {
    if bits == [] then []
    else Written(cursor) + Run(root, Next(root, cursor, bits[0]), bits[1..])
  }

  /** What the cursor writes when a bit arrives: a leaf's label, else nothing. */
  function Written(cursor: CharBinTree): (s: string)
    requires LabelledLeaves(cursor)
    ensures IsLeaf(cursor) ==> s == cursor.charData.value
    ensures !IsLeaf(cursor) ==> s == []
  {
    if IsLeaf(cursor) then cursor.charData.value else []
  }

  /** Every leaf carries a label of at most one character, as the words of
      `split("")` are. */
  predicate ShortLabels(t: CharBinTree)
    decreases t
  {
    if IsLeaf(t) then t.charData.Some? && |t.charData.value| <= 1
    else (HasLeft(t) ==> ShortLabels(t.left.value)) && (HasRight(t) ==> ShortLabels(t.right.value))
  }

  /** Where the cursor stands after a bit: back at the root if it was on a
      leaf, then one step left (false) or right (true) unless on a leaf. */
  function Next(root: CharBinTree, cursor: CharBinTree, bit: bool): (next: CharBinTree)
    requires Full(root) && LabelledLeaves(root)
    requires Full(cursor) && LabelledLeaves(cursor)
    ensures Full(next) && LabelledLeaves(next)
    ensures ShortLabels(root) && ShortLabels(cursor) ==> ShortLabels(next)
  {
    var at := if IsLeaf(cursor) then root else cursor;
    if IsLeaf(at) then at else if bit then at.right.value else at.left.value
  }

  /** With labels of at most one character, as `split("")` makes them, the
      loop writes at most one character per bit it reads. */
  lemma {:induction false} RunWritesOnePerBit(root: CharBinTree, cursor: CharBinTree, bits: seq<bool>)
    requires Full(root) && LabelledLeaves(root) && ShortLabels(root)
    requires Full(cursor) && LabelledLeaves(cursor) && ShortLabels(cursor)
    ensures |Run(root, cursor, bits)| <= |bits|
    decreases |bits|
  {
    if bits != [] {
      RunWritesOnePerBit(root, Next(root, cursor, bits[0]), bits[1..]);
    }
  }

  /** One round of the decompress loop at position i of the bits. */
  lemma RunFrom(root: CharBinTree, cursor: CharBinTree, bits: seq<bool>, i: int)
    requires Full(root) && LabelledLeaves(root)
    requires Full(cursor) && LabelledLeaves(cursor)
    requires 0 <= i < |bits|
    ensures Run(root, cursor, bits[i..]) == Written(cursor) + Run(root, Next(root, cursor, bits[i]), bits[i + 1..])
  {
    assert bits[i..][1..] == bits[i + 1..];
  }

  /** Following a leaf's path from an inner root writes nothing until the
      next bit: then the leaf's label is written and decoding goes on from
      the root. */
  lemma {:induction false} WalkToLeaf(root: CharBinTree, t: CharBinTree, q: string, k: string, rest: seq<bool>)
    requires Full(root) && LabelledLeaves(root) && IsInner(root)
    requires Full(t) && LabelledLeaves(t) && LeafPath(t, q, k)
    ensures Run(root, t, Bits(q) + rest) == if rest == [] then [] else k + Run(root, root, rest)
    decreases |q|
  {
    if q == [] {
      assert Bits(q) + rest == rest;
    } else {
      var child := if q[0] == '1' then t.right.value else t.left.value;
      assert (Bits(q) + rest)[0] == (q[0] == '1');
      assert (Bits(q) + rest)[1..] == Bits(q[1..]) + rest;
      WalkToLeaf(root, child, q[1..], k, rest);
    }
  }

  /** On the bits of a text whose codes are leaf paths of a tree with an inner
      root, the decompress loop writes every character but the last. */
  lemma {:induction false} DecodeEncoded(root: CharBinTree, text: string, codes: map<string, string>)
    requires Full(root) && LabelledLeaves(root) && IsInner(root)
    requires Encodable(text, codes)
    requires forall i :: 0 <= i < |text| ==> LeafPath(root, codes[[text[i]]], [text[i]])
    requires |text| >= 1
    ensures Run(root, root, Encode(text, codes)) == text[..|text| - 1]
    decreases |text|
  {
    var rest := Encode(text[1..], codes);
    WalkToLeaf(root, root, codes[[text[0]]], [text[0]], rest);
    if |text| > 1 {
      var tail := text[1..];
      assert forall i :: 0 <= i < |tail| ==> tail[i] == text[i + 1];
      DecodeEncoded(root, tail, codes);
      LeafPathDepth(root, codes[[tail[0]]], [tail[0]]);
      assert rest == Bits(codes[[tail[0]]]) + Encode(tail[1..], codes);
      assert text[..|text| - 1] == [text[0]] + tail[..|tail| - 1];
    }
  }
}
