/**
 * The compressor object of compress/Compression.java: it holds the text, the
 * priority queue of trees and the code tree, and runs the Huffman pipeline
 * step by step. The text is given as a value; the bit writer and bit reader
 * are sequences of bits written or consumed in order.
 */
module Huffman {
  import opened Wrappers
  import opened BinTree
  import opened JavaText
  import opened Coding

  class Compression {
    /** The whole input text. */
    var pageItems: string
    /** The priority queue's contents; which of several lightest trees
        remove() returns is left open. */
    var treeQueue: seq<CharBinTree>
    /** The tree the decoder resets to. */
    var codeTree: CharBinTree

    /** Every tree in the queue has weights everywhere, labels at its leaves
        and the sum of its children's weights at each inner node. */
    ghost predicate Valid()
      reads this
    {
      AllShaped(treeQueue)
    }

    /** The text read from the input; an empty queue; a placeholder code tree
        with null label and weight. */
    constructor(pageItems: string)
      ensures this.pageItems == pageItems && treeQueue == [] && codeTree == Leaf(None, None)
      ensures Valid()
    {
      this.pageItems := pageItems;
      treeQueue := [];
      codeTree := Leaf(None, None);
    }

    /** freqTable: the words of the text (its characters, or the one empty
        word of an empty text), each mapped to its number of occurrences. */
    method FreqTable() returns (wordCounts: map<string, int>)
      ensures forall w :: w in wordCounts <==> w in Split(pageItems)
      ensures forall w :: w in wordCounts ==> wordCounts[w] == multiset(Split(pageItems))[w]
      ensures forall w :: w in wordCounts ==> wordCounts[w] >= 1
    {
      var allWords := Split(pageItems);
      wordCounts := map[];
      var i := 0;
      while i < |allWords|
        invariant 0 <= i <= |allWords|
        invariant forall w :: w in wordCounts <==> w in allWords[..i]
        invariant forall w :: w in wordCounts ==> wordCounts[w] == multiset(allWords[..i])[w]
      {
        var s := allWords[i];
        assert allWords[..i + 1] == allWords[..i] + [s];
        if s in wordCounts {
          wordCounts := wordCounts[s := wordCounts[s] + 1];
        } else {
          wordCounts := wordCounts[s := 1];
        }
        i := i + 1;
      }
      assert allWords[..i] == allWords;
    }

    /** charQueue: adds one leaf per key of the frequency table, in ascending
        key order, weighted by the key's count. The keys in that order are
        returned for the proofs. */
    method CharQueue() returns (ghost keys: seq<string>)
      requires Valid()
      modifies this`treeQueue
      ensures Valid()
      ensures Ascending(keys)
      ensures forall w :: w in keys <==> w in Split(pageItems)
      ensures treeQueue == old(treeQueue) + LeavesFor(keys, Split(pageItems))
    {
      var wordCounts := FreqTable();
      ghost var words := Split(pageItems);
      ghost var start := treeQueue;
      var remaining := wordCounts.Keys;
      keys := [];
      while remaining != {}
        invariant remaining <= wordCounts.Keys
        invariant forall w :: w in keys <==> w in wordCounts && w !in remaining
        invariant Ascending(keys) && AllBelow(keys, remaining)
        invariant treeQueue == start + LeavesFor(keys, words)
        decreases |remaining|
      {
        LeastKeyExists(remaining);
        var key :| LeastOf(key, remaining);
        var leaf := Leaf(Some(key), Some(wordCounts[key]));
        LeavesForSnoc(start, keys, key, words);
        TakeLeast(keys, key, remaining);
        treeQueue := treeQueue + [leaf];
        keys := keys + [key];
        remaining := remaining - {key};
      }
      SeededShaped(start, keys, words);
    }

    /** treeQueue.remove(): takes out some tree of least weight. */
    method RemoveLightest() returns (t: CharBinTree)
      requires Valid() && |treeQueue| >= 1
      modifies this`treeQueue
      ensures Valid()
      ensures Lightest(t, old(treeQueue)) && HuffmanShaped(t)
      ensures |treeQueue| == |old(treeQueue)| - 1
      ensures multiset(treeQueue) == old(multiset(treeQueue)) - multiset{t}
      ensures |old(treeQueue)| == 1 ==> treeQueue == [] && t == old(treeQueue)[0]
      ensures Weighted(treeQueue) && Weighted(old(treeQueue))
      ensures TotalWeight(treeQueue) + Weight(t) == old(TotalWeight(treeQueue))
      ensures multiset(QueueFringe(treeQueue)) + multiset(Fringe(t)) == old(multiset(QueueFringe(treeQueue)))
    {
      var q := treeQueue;
      ShapedIsWeighted(q);
      LightestExists(q);
      var i :| 0 <= i < |q| && Lightest(q[i], q);
      t := q[i];
      var rest := q[..i] + q[i + 1..];
      TakeLightest(q, i, rest);
      treeQueue := rest;
    }

    /** createTree: seeds the queue, then repeatedly replaces its two lightest
        trees by an inner node over them weighing their sum, until one tree
        is left. That tree weighs the queue's former total plus the number of
        words, and its leaves are the former leaves plus one leaf per key. */
    method CreateTree() returns (ghost keys: seq<string>)
      requires Valid()
      modifies this`treeQueue
      ensures Valid() && |treeQueue| == 1
      ensures Ascending(keys)
      ensures forall w :: w in keys <==> w in Split(pageItems)
      ensures Weighted(old(treeQueue)) && Weighted(treeQueue)
      ensures Weight(treeQueue[0]) == old(TotalWeight(treeQueue)) + |Split(pageItems)|
      ensures multiset(Fringe(treeQueue[0])) == old(multiset(QueueFringe(treeQueue))) + multiset(AsLabels(keys))
      ensures old(treeQueue) == [] ==> Distinct(Fringe(treeQueue[0]))
    {
      ShapedIsWeighted(treeQueue);
      keys := CharQueue();
      SplitWords(pageItems);
      SeededQueue(old(treeQueue), keys, Split(pageItems));
      ghost var start := treeQueue;
      while |treeQueue| != 1
        invariant Valid() && |treeQueue| >= 1
        invariant Weighted(treeQueue)
        invariant TotalWeight(treeQueue) == TotalWeight(start)
        invariant multiset(QueueFringe(treeQueue)) == multiset(QueueFringe(start))
        decreases |treeQueue|
      {
        ghost var q0 := treeQueue;
        var t1 := RemoveLightest();
        ghost var q1 := treeQueue;
        var t2 := RemoveLightest();
        var mainTree := Inner(None, Some(t1.frequency.value + t2.frequency.value), Some(t1), Some(t2));
        MergeInto(q0, t1, q1, t2, treeQueue, mainTree);
        treeQueue := treeQueue + [mainTree];
      }
      SingleQueue(treeQueue);
      if old(treeQueue) == [] {
        assert QueueFringe(old(treeQueue)) == [];
        PermutedKeysDistinct(treeQueue[0], keys);
      }
    }

    /** makePath: removes a lightest tree from the queue (the only one after
        createTree), keeps it as the code tree and returns its code table. */
    method MakePath() returns (charPath: map<string, string>)
      requires Valid() && |treeQueue| >= 1
      modifies this`treeQueue, this`codeTree
      ensures Valid()
      ensures Lightest(codeTree, old(treeQueue)) && HuffmanShaped(codeTree)
      ensures multiset(treeQueue) == old(multiset(treeQueue)) - multiset{codeTree}
      ensures |old(treeQueue)| == 1 ==> treeQueue == [] && codeTree == old(treeQueue)[0]
      ensures Full(codeTree) && LabelledLeaves(codeTree)
      ensures charPath == Codes(codeTree, "")
    {
      charPath := map[];
      var currPath := "";
      var mainTree := RemoveLightest();
      codeTree := mainTree;
      HuffmanShapedIsFullAndLabelled(mainTree);
      charPath := PathHelper(charPath, mainTree, currPath);
      NoEarlierCodes(Codes(mainTree, currPath));
    }

    /** pathHelper: records the code of every leaf below `mainTree`, with
        `currPath` as the way down to it, into the table built so far. */
    method PathHelper(charPath: map<string, string>, mainTree: CharBinTree, currPath: string)
      returns (paths: map<string, string>)
      requires LabelledLeaves(mainTree)
      ensures paths == charPath + Codes(mainTree, currPath)
      ensures IsLeaf(mainTree) ==> paths == charPath[mainTree.charData.value := currPath]
      decreases mainTree
    {
      paths := charPath;
      if IsLeaf(mainTree) {
        paths := paths[mainTree.charData.value := currPath];
        LeafCodes(charPath, mainTree, currPath);
      }
      ghost var l: map<string, string> := map[];
      ghost var r: map<string, string> := map[];
      if HasLeft(mainTree) {
        l := Codes(mainTree.left.value, currPath + "0");
        paths := PathHelper(paths, mainTree.left.value, currPath + "0");
      }
      if HasRight(mainTree) {
        r := Codes(mainTree.right.value, currPath + "1");
        paths := PathHelper(paths, mainTree.right.value, currPath + "1");
      }
      if !IsLeaf(mainTree) {
        InnerCodes(charPath, mainTree, currPath, l, r);
      }
    }

    /** compressFile: writes, character by character, the bits of each
        character's code ('1' as true). A character without a code is a null
        dereference: writing stops there and `completed` is false. */
    method CompressFile(path: map<string, string>) returns (bits: seq<bool>, completed: bool)
      ensures completed <==> Encodable(pageItems, path)
      ensures completed ==> bits == Encode(pageItems, path)
      ensures !completed ==>
                exists j :: 0 <= j < |pageItems| && [pageItems[j]] !in path
                            && Encodable(pageItems[..j], path) && bits == Encode(pageItems[..j], path)
    {
      bits := [];
      var i := 0;
      while i < |pageItems|
        invariant 0 <= i <= |pageItems|
        invariant Encodable(pageItems[..i], path)
        invariant bits == Encode(pageItems[..i], path)
      {
        var a := pageItems[i];
        if [a] !in path {
          completed := false;
          return;
        }
        var val := path[[a]];
        var j := 0;
        while j < |val|
          invariant 0 <= j <= |val|
          invariant bits == Encode(pageItems[..i], path) + Bits(val[..j])
        {
          var num := val[j];
          assert Bits(val[..j + 1]) == Bits(val[..j]) + [num == '1'];
          bits := bits + [num == '1'];
          j := j + 1;
        }
        assert val[..j] == val;
        assert pageItems[..i + 1] == pageItems[..i] + [a];
        EncodeConcat(pageItems[..i], [a], path);
        i := i + 1;
      }
      assert pageItems[..i] == pageItems;
      completed := true;
    }

    /** decompress: runs the cursor machine from `mainTree` over the bits,
        resetting to the code tree; then, for a non-empty text, writes the
        text's last character. */
    method Decompress(bits: seq<bool>, mainTree: CharBinTree) returns (finalText: string)
      requires Full(codeTree) && LabelledLeaves(codeTree)
      requires Full(mainTree) && LabelledLeaves(mainTree)
      ensures finalText == Run(codeTree, mainTree, bits)
                + (if pageItems == [] then [] else [pageItems[|pageItems| - 1]])
    {
      var cursor := mainTree;
      finalText := [];
      var i := 0;
      while i < |bits|
        invariant 0 <= i <= |bits|
        invariant Full(cursor) && LabelledLeaves(cursor)
        invariant finalText + Run(codeTree, cursor, bits[i..]) == Run(codeTree, mainTree, bits)
      {
        var bit := bits[i];
        RunFrom(codeTree, cursor, bits, i);
        ghost var next, written := Next(codeTree, cursor, bit), Written(cursor);
        ghost var before := finalText;
        WrittenSoFar(before, written, Run(codeTree, next, bits[i + 1..]), Run(codeTree, cursor, bits[i..]),
                     Run(codeTree, mainTree, bits));
        if IsLeaf(cursor) {
          finalText := finalText + cursor.charData.value;
          cursor := codeTree;
        }
        if !bit && !IsLeaf(cursor) {
          cursor := cursor.left.value;
        }
        if bit && !IsLeaf(cursor) {
          cursor := cursor.right.value;
        }
        assert cursor == next && finalText == before + written;
        i := i + 1;
      }
      if pageItems != [] {
        finalText := finalText + [pageItems[|pageItems| - 1]];
      }
    }
  }

  /** The pipeline of the compressor's entry point on one text: build the
      tree, derive the table, compress, decompress with the code tree. The
      output is the text whenever it has two different characters or at most
      one character; a longer text of one repeated character comes back as
      that character once, since its code is empty and no bits are written. */
  method RoundTrip(text: string) returns (decoded: string)
    ensures (|text| <= 1 || exists i, j :: 0 <= i < |text| && 0 <= j < |text| && text[i] != text[j]) ==> decoded == text
    ensures (|text| >= 2 && forall i :: 0 <= i < |text| ==> text[i] == text[0]) ==> decoded == [text[0]]
  {
    var c := new Compression(text);
    ghost var keys := c.CreateTree();
    ghost var root := c.treeQueue[0];
    assert multiset(Fringe(root)) == multiset(AsLabels(keys));
    var path := c.MakePath();
    assert c.codeTree == root && path == Codes(root, "");
    var bits, completed := c.CompressFile(path);
    assert c.codeTree == root && c.pageItems == text;
    decoded := c.Decompress(bits, c.codeTree);
    PipelineOutcome(text, keys, root, path, bits, completed, decoded);
  }

  /** A solver hint, not a result: the text written so far plus what is left to write stays the whole
      output when a round moves `written` from the latter to the former. */
  lemma WrittenSoFar(before: string, written: string, rest: string, left: string, whole: string)
    requires before + left == whole && left == written + rest
    ensures (before + written) + rest == whole
  {
  }

  /** What the pipeline's steps promise, put together. */
  lemma PipelineOutcome(text: string, keys: seq<string>, root: CharBinTree, path: map<string, string>,
                        bits: seq<bool>, completed: bool, decoded: string)
    requires Full(root) && LabelledLeaves(root)
    requires Ascending(keys) && forall w :: w in keys <==> w in Split(text)
    requires multiset(Fringe(root)) == multiset(AsLabels(keys))
    requires path == Codes(root, "")
    requires completed <==> Encodable(text, path)
    requires completed ==> bits == Encode(text, path)
    requires decoded == Run(root, root, bits) + (if text == [] then [] else [text[|text| - 1]])
    ensures (|text| <= 1 || exists i, j :: 0 <= i < |text| && 0 <= j < |text| && text[i] != text[j]) ==> decoded == text
    ensures (|text| >= 2 && forall i :: 0 <= i < |text| ==> text[i] == text[0]) ==> decoded == [text[0]]
  {
    CharsHaveLeafPaths(text, keys, root);
    if text == [] {
      assert bits == [];
    } else if IsLeaf(root) {
      assert decoded == [text[|text| - 1]] by {
        assert path == map[root.charData.value := ""];
        EncodeWithEmptyCodes(text, path);
      }
      OneLeafText(text, keys, root);
    } else {
      assert decoded == text by {
        DecodeEncoded(root, text, path);
        ButLastThenLast(text);
      }
      InnerRootText(text, keys, root);
    }
  }

  /** A solver hint, not a result: a non-empty text is its front and its last character. */
  lemma ButLastThenLast(text: string)
    requires text != []
    ensures text[..|text| - 1] + [text[|text| - 1]] == text
  {
  }

  /** Every character of the text is a key, so it labels a leaf of the
      tree, and its code is the way down to that leaf. Conversely, the path
      down to any leaf is the code of that leaf's label. */
  lemma CharsHaveLeafPaths(text: string, keys: seq<string>, root: CharBinTree)
    requires LabelledLeaves(root)
    requires Ascending(keys) && forall w :: w in keys <==> w in Split(text)
    requires multiset(Fringe(root)) == multiset(AsLabels(keys))
    ensures Encodable(text, Codes(root, ""))
    ensures forall i :: 0 <= i < |text| ==> LeafPath(root, Codes(root, "")[[text[i]]], [text[i]])
    ensures forall q, k :: LeafPath(root, q, k) ==> k in Codes(root, "") && Codes(root, "")[k] == q
  {
    var path := Codes(root, "");
    BuiltTreeCodes(root, keys);
    SplitWords(text);
    CodesKeys(root, "");
    CodesFollowLeafPaths(root, "");
    forall i | 0 <= i < |text|
      ensures [text[i]] in path && LeafPath(root, path[[text[i]]], [text[i]])
    {
      assert [text[i]] in keys;
      var n :| 0 <= n < |keys| && keys[n] == [text[i]];
      assert AsLabels(keys)[n] == Some([text[i]]);
      assert Some([text[i]]) in multiset(Fringe(root));
      assert path[[text[i]]][0..] == path[[text[i]]];
    }
  }

  /** A one-leaf tree comes from a text of one repeated character. */
  lemma OneLeafText(text: string, keys: seq<string>, root: CharBinTree)
    requires IsLeaf(root) && text != []
    requires Ascending(keys) && forall w :: w in keys <==> w in Split(text)
    requires multiset(Fringe(root)) == multiset(AsLabels(keys))
    ensures forall i :: 0 <= i < |text| ==> text[i] == text[0]
  {
    SplitWords(text);
    assert |keys| == 1 by {
      assert |multiset(Fringe(root))| == |multiset(AsLabels(keys))|;
    }
    forall i | 0 <= i < |text|
      ensures text[i] == text[0]
    {
      assert [text[i]] in keys && [text[0]] in keys;
      assert [text[i]] == keys[0] == [text[0]];
      assert [text[i]][0] == text[i];
    }
  }

  /** A tree with an inner root has two leaves, hence two distinct keys: the
      text has two different characters. */
  lemma InnerRootText(text: string, keys: seq<string>, root: CharBinTree)
    requires Full(root) && !IsLeaf(root) && text != []
    requires Ascending(keys) && forall w :: w in keys <==> w in Split(text)
    requires multiset(Fringe(root)) == multiset(AsLabels(keys))
    ensures exists i, j :: 0 <= i < |text| && 0 <= j < |text| && text[i] != text[j]
  {
    SplitWords(text);
    FullInnerHasTwoLeaves(root);
    assert |keys| >= 2 by {
      assert |multiset(Fringe(root))| == |multiset(AsLabels(keys))|;
    }
    AscendingIsDistinct(keys);
    assert keys[0] in keys && keys[1] in keys;
    var i :| 0 <= i < |text| && keys[0] == [text[i]];
    var j :| 0 <= j < |text| && keys[1] == [text[j]];
    assert text[i] != text[j];
  }
}
