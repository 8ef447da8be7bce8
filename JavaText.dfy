/**
 * The two pieces of java.lang.String behaviour the compressor relies on:
 * `split("")`, which cuts the text into one-character words, and
 * `compareTo`, the order in which a TreeMap keeps its string keys.
 */
module JavaText {

  /** `text.split("")`: one single-character word per character; the empty
      text yields one empty word. */
  function Split(text: string): seq<string>
  {
    if text == [] then [""]
    else seq(|text|, i requires 0 <= i < |text| => [text[i]])
  }

  /** The words of a text are exactly its characters, or the one empty word. */
  lemma SplitWords(text: string)
    ensures |Split(text)| == if text == [] then 1 else |text|
    ensures forall w :: w in Split(text) <==>
              (text == [] && w == "") || (exists i :: 0 <= i < |text| && w == [text[i]])
  {
    if text != [] {
      forall w | w in Split(text)
        ensures exists i :: 0 <= i < |text| && w == [text[i]]
      {
        var i :| 0 <= i < |Split(text)| && Split(text)[i] == w;
        assert w == [text[i]];
      }
      forall i | 0 <= i < |text|
        ensures [text[i]] in Split(text)
      {
        assert Split(text)[i] == [text[i]];
      }
    }
  }

  /** `a.compareTo(b) < 0`: the first differing character decides; otherwise
      the shorter string comes first. */
  predicate StrLess(a: string, b: string)
    decreases |a|
  {
    if |a| == 0 then |b| > 0
    else if |b| == 0 then false
    else a[0] < b[0] || (a[0] == b[0] && StrLess(a[1..], b[1..]))
  }

  lemma {:induction false} StrLessIrreflexive(a: string)
    ensures !StrLess(a, a)
    decreases |a|
  {
    if |a| > 0 {
      StrLessIrreflexive(a[1..]);
    }
  }

  lemma {:induction false} StrLessTransitive(a: string, b: string, c: string)
    requires StrLess(a, b) && StrLess(b, c)
    ensures StrLess(a, c)
    decreases |a|
  {
    if |a| > 0 && a[0] == b[0] && b[0] == c[0] {
      StrLessTransitive(a[1..], b[1..], c[1..]);
    }
  }

  lemma {:induction false} StrLessTotal(a: string, b: string)
    ensures a == b || StrLess(a, b) || StrLess(b, a)
    decreases |a|
  {
    if |a| > 0 && |b| > 0 && a[0] == b[0] {
      StrLessTotal(a[1..], b[1..]);
      assert a == [a[0]] + a[1..];
      assert b == [b[0]] + b[1..];
    }
  }

  /** m is the least of the strings in s. */
  predicate LeastOf(m: string, s: set<string>)
  {
    m in s && forall k :: k in s && k != m ==> StrLess(m, k)
  }

  /** Every non-empty finite set of strings has a least element: the key a
      TreeMap's iteration visits first. */
  lemma {:induction false} LeastKeyExists(s: set<string>)
    requires s != {}
    ensures exists m :: LeastOf(m, s)
    decreases |s|
  {
    var x :| x in s;
    if s != {x} {
      var rest := s - {x};
      LeastKeyExists(rest);
      var m :| LeastOf(m, rest);
      StrLessTotal(x, m);
      if StrLess(x, m) {
        forall k | k in s && k != x
          ensures StrLess(x, k)
        {
          if k != m {
            StrLessTransitive(x, m, k);
          }
        }
        assert LeastOf(x, s);
      } else {
        forall k | k in s && k != m
          ensures StrLess(m, k)
        {
        }
        assert LeastOf(m, s);
      }
    } else {
      assert LeastOf(x, s);
    }
  }

  /** Keys in strictly ascending compareTo order. */
  predicate Ascending(keys: seq<string>)
  {
    forall i, j :: 0 <= i < j < |keys| ==> StrLess(keys[i], keys[j])
  }

  /** Every key taken so far comes before every key still to take. */
  predicate AllBelow(keys: seq<string>, s: set<string>)
  {
    forall i, k :: 0 <= i < |keys| && k in s ==> StrLess(keys[i], k)
  }

  /** Taking the least remaining key keeps the taken keys ascending and
      below the rest. */
  lemma TakeLeast(keys: seq<string>, key: string, s: set<string>)
    requires Ascending(keys) && AllBelow(keys, s) && LeastOf(key, s)
    ensures Ascending(keys + [key]) && AllBelow(keys + [key], s - {key})
  {
  }

  predicate Distinct<T(==)>(s: seq<T>)
  {
    forall i, j :: 0 <= i < j < |s| ==> s[i] != s[j]
  }

  lemma AscendingIsDistinct(keys: seq<string>)
    requires Ascending(keys)
    ensures Distinct(keys)
  {
    forall i, j | 0 <= i < j < |keys|
      ensures keys[i] != keys[j]
    {
      StrLessIrreflexive(keys[i]);
    }
  }
}
