/**
 * The frequency table that `Node.count_chars` builds (Huffman_tree.py:63-75).
 * The source keeps it in a Python dict, whose keys are strings: a one-character
 * string for each character of the input and the three-character string "EOF"
 * for the end of the stream. A dict remembers insertion order, and the tree
 * builder depends on that order, so the table is modelled as the list of keys
 * in insertion order together with the map from key to count.
 */
module CharCounting {

  /** The synthetic end-of-stream key. */
  const EofKey: string := "EOF"

  /** An insertion-ordered dict from keys to counts. */
  datatype CharCounts = CharCounts(keys: seq<string>, counts: map<string, int>)

  /** The empty dict, `dict()`. */
  const NoCounts: CharCounts := CharCounts([], map[])

  /** The key list and the map describe the same keys, each listed once. */
  ghost predicate Consistent(d: CharCounts) {
    && (forall a, b :: 0 <= a < b < |d.keys| ==> d.keys[a] != d.keys[b])
    && (forall key :: key in d.counts <==> key in d.keys)
  }

  /** One step of the counting loop: `d[key] += 1` for a known key, `d[key] = 1` otherwise. */
  function Bump(d: CharCounts, key: string): (r: CharCounts)
    ensures key in r.counts && r.counts[key] == (if key in d.counts then d.counts[key] else 0) + 1
    ensures d.keys <= r.keys && |r.keys| <= |d.keys| + 1
  {
    if key in d.counts then CharCounts(d.keys, d.counts[key := d.counts[key] + 1])
    else CharCounts(d.keys + [key], d.counts[key := 1])
  }

  /** One counting step leaves every other key and its count alone. */
  lemma BumpOthers(d: CharCounts, key: string)
    ensures Bump(d, key).counts.Keys == d.counts.Keys + {key}
    ensures forall k :: k in d.counts && k != key ==> Bump(d, key).counts[k] == d.counts[k]
  {
  }

  /** `d[key] = v`: a known key keeps its place, a new key goes last. */
  function Assign(d: CharCounts, key: string, v: int): CharCounts {
    if key in d.counts then CharCounts(d.keys, d.counts[key := v])
    else CharCounts(d.keys + [key], d.counts[key := v])
  }

  /** The table after the counting loop has seen all of `s`. */
  function Tally(s: string): (r: CharCounts)
    ensures |r.keys| <= |s|
    decreases |s|
  {
    if s == [] then NoCounts else Bump(Tally(s[..|s| - 1]), [s[|s| - 1]])
  }

  /** The table `count_chars` leaves behind: the tally, then `"EOF"` set to 1. */
  function CountTable(s: string): (r: CharCounts)
    ensures EofKey in r.counts
  {
    Assign(Tally(s), EofKey, 1)
  }

  /** Index of the first occurrence of `c` in `s`. */
  function FirstIndex(s: string, c: char): (i: nat)
    requires c in s
    ensures i < |s| && s[i] == c && c !in s[..i]
    decreases |s|
  {
    if c in s[..|s| - 1] then FirstIndex(s[..|s| - 1], c) else |s| - 1
  }

  /** Sum of the counts of `keys`, taken in list order. */
  function SumOver(keys: seq<string>, m: map<string, int>): int
    requires forall k :: k in keys ==> k in m
    decreases |keys|
  {
    if keys == [] then 0 else SumOver(keys[..|keys| - 1], m) + m[keys[|keys| - 1]]
  }

  /** Changing the count of one key changes the sum by the difference. */
  lemma {:induction false} SumOverUpdate(keys: seq<string>, m: map<string, int>, key: string, v: int)
    requires forall a, b :: 0 <= a < b < |keys| ==> keys[a] != keys[b]
    requires forall k :: k in keys ==> k in m
    ensures forall k :: k in keys ==> k in m[key := v]
    ensures SumOver(keys, m[key := v]) == SumOver(keys, m) + (if key in keys then v - m[key] else 0)
  {
    if keys != [] {
      var init := keys[..|keys| - 1];
      var last := keys[|keys| - 1];
      assert forall k :: k in init ==> k in keys;
      SumOverUpdate(init, m, key, v);
      assert key in keys <==> key in init || key == last;
      assert last !in init;
    }
  }

  /** The key list and the map of the counting loop agree, keys are listed
      once and every count is positive. */
  lemma {:induction false} TallyConsistent(s: string)
    ensures Consistent(Tally(s))
    ensures forall key :: key in Tally(s).counts ==> Tally(s).counts[key] >= 1
    decreases |s|
  {
    if s != [] {
      TallyConsistent(s[..|s| - 1]);
    }
  }

  /** The keys of the counting loop are exactly the one-character strings made
      from the characters of `s`. */
  lemma {:induction false} TallyKeys(s: string)
    ensures forall key :: key in Tally(s).counts ==> |key| == 1 && key[0] in s
    ensures forall c :: c in s ==> [c] in Tally(s).counts
    decreases |s|
  {
    if s != [] {
      var p := s[..|s| - 1];
      var c := s[|s| - 1];
      assert s == p + [c];
      TallyKeys(p);
      assert forall x :: x in s <==> x in p || x == c;
    }
  }

  /** "EOF" is never a key of the counting loop: it has three characters. */
  lemma EofNotTallied(s: string)
    ensures EofKey !in Tally(s).counts
  {
    TallyKeys(s);
  }

  /** Each character of `s` is counted as often as it occurs. */
  lemma {:induction false} TallyOccurrences(s: string)
    ensures forall c :: c in s ==> [c] in Tally(s).counts && Tally(s).counts[[c]] == multiset(s)[c]
    decreases |s|
  {
    TallyKeys(s);
    if s != [] {
      var p := s[..|s| - 1];
      var c := s[|s| - 1];
      assert s == p + [c];
      assert multiset(s) == multiset(p) + multiset{c};
      TallyOccurrences(p);
      TallyKeys(p);
    }
  }

  /** Each key is one character of `s`, and the keys are listed in the order in
      which their characters first occur in `s`. */
  ghost predicate FirstOccurrenceOrder(keys: seq<string>, s: string) {
    && (forall a :: 0 <= a < |keys| ==> |keys[a]| == 1 && keys[a][0] in s)
    && (forall a, b :: 0 <= a < b < |keys| ==> FirstIndex(s, keys[a][0]) < FirstIndex(s, keys[b][0]))
  }

  /** Appending a character leaves earlier first occurrences where they were. */
  lemma FirstIndexExtend(p: string, c: char, x: char)
    requires x in p
    ensures x in p + [c] && FirstIndex(p + [c], x) == FirstIndex(p, x)
  {
    assert (p + [c])[..|p|] == p;
  }

  /** A character new to `p` first occurs where it is appended. */
  lemma FirstIndexNew(p: string, c: char)
    requires c !in p
    ensures c in p + [c] && FirstIndex(p + [c], c) == |p|
  {
    assert (p + [c])[..|p|] == p;
  }

  /** The keys appear in the order in which their characters first occur in `s`. */
  lemma {:induction false} TallyOrder(s: string)
    ensures FirstOccurrenceOrder(Tally(s).keys, s)
    decreases |s|
  {
    if s != [] {
      var p := s[..|s| - 1];
      var c := s[|s| - 1];
      assert s == p + [c];
      TallyOrder(p);
      TallyConsistent(p);
      var d := Tally(p);
      var keys := Tally(s).keys;
      forall x | x in p ensures x in s && FirstIndex(s, x) == FirstIndex(p, x) {
        FirstIndexExtend(p, c, x);
      }
      if [c] in d.counts {
        assert keys == d.keys;
      } else {
        assert keys == d.keys + [[c]];
        assert c !in p by {
          if c in p {
            TallyKeys(p);
          }
        }
        FirstIndexNew(p, c);
        forall a | 0 <= a < |keys| ensures |keys[a]| == 1 && keys[a][0] in s {
          if a < |d.keys| {
            assert keys[a] == d.keys[a];
          }
        }
        forall a, b | 0 <= a < b < |keys| ensures FirstIndex(s, keys[a][0]) < FirstIndex(s, keys[b][0]) {
          assert keys[a] == d.keys[a];
          if b < |d.keys| {
            assert keys[b] == d.keys[b];
          } else {
            assert FirstIndex(p, keys[a][0]) < |p|;
          }
        }
      }
    }
  }

  /** One counting step adds one to the sum of the counts. */
  lemma BumpSum(d: CharCounts, key: string)
    requires Consistent(d)
    ensures forall k :: k in Bump(d, key).keys ==> k in Bump(d, key).counts
    ensures SumOver(Bump(d, key).keys, Bump(d, key).counts) == SumOver(d.keys, d.counts) + 1
  {
    if key in d.counts {
      SumOverUpdate(d.keys, d.counts, key, d.counts[key] + 1);
    } else {
      SumOverUpdate(d.keys, d.counts, key, 1);
      var m := d.counts[key := 1];
      var keys := d.keys + [key];
      assert keys[..|keys| - 1] == d.keys;
      assert SumOver(keys, m) == SumOver(d.keys, m) + 1;
    }
  }

  /** The counts add up to the length of `s`. */
  lemma {:induction false} TallySum(s: string)
    ensures forall k :: k in Tally(s).keys ==> k in Tally(s).counts
    ensures SumOver(Tally(s).keys, Tally(s).counts) == |s|
    decreases |s|
  {
    TallyConsistent(s);
    if s != [] {
      var p := s[..|s| - 1];
      TallySum(p);
      TallyConsistent(p);
      assert Tally(s) == Bump(Tally(p), [s[|s| - 1]]);
      BumpSum(Tally(p), [s[|s| - 1]]);
    }
  }

  /** The keys of `count_chars`' table, each with a positive count, "EOF" last
      with count 1 (Huffman_tree.py:69-75). */
  lemma CountTableKeys(s: string)
    ensures Consistent(CountTable(s))
    ensures EofKey in CountTable(s).counts && CountTable(s).counts[EofKey] == 1
    ensures |CountTable(s).keys| >= 1 && CountTable(s).keys[|CountTable(s).keys| - 1] == EofKey
    ensures forall key :: key in CountTable(s).counts ==> key == EofKey || (|key| == 1 && key[0] in s)
    ensures forall c :: c in s ==> [c] in CountTable(s).counts
    ensures forall k :: k in CountTable(s).keys ==> k in CountTable(s).counts
    ensures forall k :: k in CountTable(s).counts ==> CountTable(s).counts[k] >= 1
  {
    TallyConsistent(s);
    TallyKeys(s);
    assert EofKey !in Tally(s).counts;
  }

  /** Each character of `s` maps to its number of occurrences (Huffman_tree.py:70-74). */
  lemma CountTableOccurrences(s: string)
    ensures forall c :: c in s ==> [c] in CountTable(s).counts && CountTable(s).counts[[c]] == multiset(s)[c]
  {
    TallyOccurrences(s);
  }

  /** The characters' keys come in order of first occurrence, and "EOF" comes last. */
  lemma CountTableOrder(s: string)
    ensures |CountTable(s).keys| >= 1
    ensures CountTable(s).keys[|CountTable(s).keys| - 1] == EofKey
    ensures FirstOccurrenceOrder(CountTable(s).keys[..|CountTable(s).keys| - 1], s)
  {
    TallyConsistent(s);
    TallyOrder(s);
    EofNotTallied(s);
    var d := Tally(s);
    var keys := d.keys + [EofKey];
    assert CountTable(s).keys == keys;
    assert keys[..|keys| - 1] == d.keys;
  }

  /** All counts add up to `|s| + 1`: one per character and one for "EOF". */
  lemma CountTableSum(s: string)
    ensures forall k :: k in CountTable(s).keys ==> k in CountTable(s).counts
    ensures SumOver(CountTable(s).keys, CountTable(s).counts) == |s| + 1
  {
    TallyConsistent(s);
    TallySum(s);
    EofNotTallied(s);
    var d := Tally(s);
    var keys := d.keys + [EofKey];
    var m := d.counts[EofKey := 1];
    assert CountTable(s) == CharCounts(keys, m);
    SumOverUpdate(d.keys, d.counts, EofKey, 1);
    assert keys[..|keys| - 1] == d.keys;
    assert SumOver(keys, m) == SumOver(d.keys, m) + 1;
  }

  /** A key list with no repeats holds each of its keys exactly once. */
  lemma {:induction false} DistinctOnce(keys: seq<string>)
    requires forall a, b :: 0 <= a < b < |keys| ==> keys[a] != keys[b]
    ensures forall key :: key in keys ==> multiset(keys)[key] == 1
    decreases |keys|
  {
    if keys != [] {
      var init := keys[..|keys| - 1];
      var last := keys[|keys| - 1];
      assert keys == init + [last];
      DistinctOnce(init);
      assert last !in init;
      assert multiset(keys) == multiset(init) + multiset{last};
    }
  }

  /** A non-empty text gives at least one character key besides "EOF". */
  lemma CountTableTwoKeys(s: string)
    requires |s| >= 1
    ensures |CountTable(s).keys| >= 2
  {
    CountTableKeys(s);
    var keys := CountTable(s).keys;
    var a :| 0 <= a < |keys| && keys[a] == [s[0]];
    assert a != |keys| - 1 by { assert |keys[a]| != |EofKey|; }
  }

  /** The empty string gives the table `{"EOF": 1}`. */
  lemma CountTableEmpty()
    ensures CountTable("") == CharCounts([EofKey], map[EofKey := 1])
  {
  }

  /** The table of "aab": "a" twice, then "b" once, then "EOF". */
  lemma CountTableAab()
    ensures CountTable("aab") == CharCounts(["a", "b", EofKey], map["a" := 2, "b" := 1, EofKey := 1])
  {
    assert "aab"[..2] == "aa" && "aa"[..1] == "a" && "a"[..0] == "";
    assert Tally("a") == CharCounts(["a"], map["a" := 1]);
    assert Tally("aa") == CharCounts(["a"], map["a" := 2]);
  }
}
