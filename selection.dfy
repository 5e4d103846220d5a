/**
 * How `Node.build_tree` chooses the two nodes to merge (Huffman_tree.py:43-49),
 * on the list of the working nodes' counts: the smallest count, the indices
 * that hold it, and, when only one does, the second-smallest count and its
 * indices appended after it. The first two indices of that list are the picks.
 */
module Selection {

  /** `min(cs)`. */
  function MinOf(cs: seq<int>): (m: int)
    requires |cs| > 0
    ensures m in cs
    ensures forall k :: 0 <= k < |cs| ==> m <= cs[k]
    decreases |cs|
  {
    if |cs| == 1 then cs[0]
    else
      var rest := MinOf(cs[..|cs| - 1]);
      assert rest in cs by { assert cs[..|cs| - 1] <= cs; }
      if cs[|cs| - 1] < rest then cs[|cs| - 1] else rest
  }

  /** `[i for i, c in enumerate(cs) if c == v]`. */
  function IndicesOf(cs: seq<int>, v: int): (ix: seq<nat>)
    ensures |ix| <= |cs|
    decreases |cs|
  {
    if cs == [] then []
    else IndicesOf(cs[..|cs| - 1], v) + (if cs[|cs| - 1] == v then [|cs| - 1] else [])
  }

  /** `[c for c in cs if c != v]`. */
  function Others(cs: seq<int>, v: int): (r: seq<int>)
    ensures |r| + |IndicesOf(cs, v)| == |cs|
    decreases |cs|
  {
    if cs == [] then []
    else Others(cs[..|cs| - 1], v) + (if cs[|cs| - 1] != v then [cs[|cs| - 1]] else [])
  }

  /** The listed indices are, in increasing order, exactly those holding `v`. */
  lemma {:induction false} IndicesOfSpec(cs: seq<int>, v: int)
    ensures forall a :: 0 <= a < |IndicesOf(cs, v)| ==>
      IndicesOf(cs, v)[a] < |cs| && cs[IndicesOf(cs, v)[a]] == v
    ensures forall a, b :: 0 <= a < b < |IndicesOf(cs, v)| ==> IndicesOf(cs, v)[a] < IndicesOf(cs, v)[b]
    ensures forall k :: 0 <= k < |cs| && cs[k] == v ==> k in IndicesOf(cs, v)
    decreases |cs|
  {
    if cs != [] {
      var init := cs[..|cs| - 1];
      IndicesOfSpec(init, v);
      var ix0 := IndicesOf(init, v);
      var ix := IndicesOf(cs, v);
      assert ix == ix0 + (if cs[|cs| - 1] == v then [|cs| - 1] else []);
      forall a | 0 <= a < |ix0|
        ensures ix[a] == ix0[a] && ix0[a] < |cs| - 1 && cs[ix0[a]] == v
      {
        assert init[ix0[a]] == v;
      }
      forall k | 0 <= k < |cs| && cs[k] == v
        ensures k in ix
      {
        if k < |cs| - 1 {
          assert init[k] == cs[k] && k in ix0;
        } else {
          assert ix[|ix| - 1] == k;
        }
      }
    }
  }

  /** The other counts are exactly the counts other than `v`. */
  lemma {:induction false} OthersSpec(cs: seq<int>, v: int)
    ensures forall x :: x in Others(cs, v) <==> x in cs && x != v
    decreases |cs|
  {
    if cs != [] {
      var init := cs[..|cs| - 1];
      OthersSpec(init, v);
      assert cs == init + [cs[|cs| - 1]];
    }
  }

  /** Index `i` holds the smallest count among the indices other than `skip`,
      and no lower such index holds it (`skip == -1` excludes nothing). */
  ghost predicate FirstMinimumExcept(cs: seq<int>, i: int, skip: int) {
    && 0 <= i < |cs| && i != skip
    && (forall k :: 0 <= k < |cs| && k != skip ==> cs[i] <= cs[k])
    && (forall k :: 0 <= k < i && k != skip ==> cs[i] < cs[k])
  }

  /** The first listed index holds `v` and no index before it does; the
      second holds `v` and no index other than the first before it does; with
      one listed index no other holds `v`; and some index is listed when one
      holds `v`. */
  lemma IndicesOfLeading(cs: seq<int>, v: int)
    ensures var ix := IndicesOf(cs, v);
      && (|ix| >= 1 ==> ix[0] < |cs| && cs[ix[0]] == v && forall k :: 0 <= k < ix[0] ==> cs[k] != v)
      && (|ix| >= 2 ==> ix[0] < ix[1] < |cs| && cs[ix[1]] == v &&
                        forall k :: 0 <= k < ix[1] && k != ix[0] ==> cs[k] != v)
      && (|ix| == 1 ==> forall k :: 0 <= k < |cs| && k != ix[0] ==> cs[k] != v)
      && ((exists k :: 0 <= k < |cs| && cs[k] == v) ==> |ix| >= 1)
  {
    var ix := IndicesOf(cs, v);
    IndicesOfSpec(cs, v);
    forall k | 0 <= k < |cs| && cs[k] == v ensures |ix| >= 1 && ix[0] <= k && (k != ix[0] ==> |ix| >= 2 && ix[1] <= k) {
      assert k in ix;
      var a :| 0 <= a < |ix| && ix[a] == k;
      assert a == 0 || ix[0] < ix[a];
      assert a == 0 || a == 1 || ix[1] < ix[a];
    }
  }

  /** `smallest_indices` (Huffman_tree.py:43-47): the indices of the smallest
      count, followed, when there is only one, by the indices of the smallest
      count among the others. */
  function SmallestIndices(cs: seq<int>): (ix: seq<nat>)
    requires |cs| >= 2
    ensures |ix| >= 2
  {
    var least := MinOf(cs);
    var ix := IndicesOf(cs, least);
    IndicesOfLeading(cs, least);
    if |ix| >= 2 then ix
    else
      var second := MinOf(Others(cs, least));
      OthersSpec(cs, least);
      IndicesOfLeading(cs, second);
      ix + IndicesOf(cs, second)
  }

  /** When the smallest count is shared, its first two indices are the picks. */
  lemma SharedMinimum(cs: seq<int>)
    requires |cs| >= 2 && |IndicesOf(cs, MinOf(cs))| >= 2
    ensures var ix := IndicesOf(cs, MinOf(cs));
      FirstMinimumExcept(cs, ix[0], -1) && FirstMinimumExcept(cs, ix[1], ix[0])
  {
    IndicesOfLeading(cs, MinOf(cs));
  }

  /** When the smallest count is held once, the smallest indices are its
      index followed by the indices of the smallest among the other counts,
      and that index is the first pick. */
  lemma SingleMinimum(cs: seq<int>)
    requires |cs| >= 2 && |IndicesOf(cs, MinOf(cs))| < 2
    ensures var ix := IndicesOf(cs, MinOf(cs));
      && |ix| == 1 && FirstMinimumExcept(cs, ix[0], -1)
      && (forall k :: 0 <= k < |cs| && k != ix[0] ==> cs[k] in Others(cs, MinOf(cs)))
      && SmallestIndices(cs) == ix + IndicesOf(cs, MinOf(Others(cs, MinOf(cs))))
  {
    IndicesOfLeading(cs, MinOf(cs));
    OthersSpec(cs, MinOf(cs));
  }

  /** When the smallest count is held once, the second pick is the first
      index of the smallest among the other counts. */
  lemma SecondMinimum(cs: seq<int>)
    requires |cs| >= 2 && |IndicesOf(cs, MinOf(cs))| < 2
    ensures var ix := SmallestIndices(cs);
      FirstMinimumExcept(cs, ix[0], -1) && FirstMinimumExcept(cs, ix[1], ix[0])
  {
    SingleMinimum(cs);
    var i := IndicesOf(cs, MinOf(cs))[0];
    var rest := Others(cs, MinOf(cs));
    var second := MinOf(rest);
    var ix2 := IndicesOf(cs, second);
    IndicesOfLeading(cs, second);
    OthersSpec(cs, MinOf(cs));
    var j := ix2[0];
    assert SmallestIndices(cs)[1] == j;
    forall k | 0 <= k < |cs| && k != i
      ensures second <= cs[k] && (k < j ==> second < cs[k])
    {
      assert cs[k] in rest;
    }
  }

  /** The two picks of one merge step (Huffman_tree.py:49): the first two
      smallest indices. The first is the lowest index of the smallest count;
      the second is the lowest index of the smallest count among all the
      other indices. */
  function PickIndices(cs: seq<int>): (p: (nat, nat))
    requires |cs| >= 2
    ensures FirstMinimumExcept(cs, p.0, -1)
    ensures FirstMinimumExcept(cs, p.1, p.0)
  {
    var ix := SmallestIndices(cs);
    if |IndicesOf(cs, MinOf(cs))| >= 2 then SharedMinimum(cs); (ix[0], ix[1])
    else SecondMinimum(cs); (ix[0], ix[1])
  }

  /** The tie-break of the picks `i` and `j`: `i` holds the smallest count;
      when another index holds it too, `j` is the next index that does;
      otherwise `j` holds the smallest of the other counts and no lower index
      holds that count. */
  ghost predicate TieBroken(cs: seq<int>, i: nat, j: nat)
    requires |cs| >= 1 && i < |cs| && j < |cs|
  {
    && cs[i] == MinOf(cs)
    && ((exists k :: 0 <= k < |cs| && k != i && cs[k] == cs[i]) ==>
          cs[j] == cs[i] && i < j && forall k :: i < k < j ==> cs[k] != cs[i])
    && ((forall k :: 0 <= k < |cs| && k != i ==> cs[k] != cs[i]) ==>
          |Others(cs, cs[i])| >= 1 &&
          cs[j] == MinOf(Others(cs, cs[i])) &&
          forall k :: 0 <= k < j && k != i ==> cs[k] != cs[j])
  }

  /** Any pair meeting the description of the picks breaks ties that way. */
  lemma TieBreak(cs: seq<int>, i: nat, j: nat)
    requires |cs| >= 2 && FirstMinimumExcept(cs, i, -1) && FirstMinimumExcept(cs, j, i)
    ensures TieBroken(cs, i, j)
  {
    var m := MinOf(cs);
    var k0 :| 0 <= k0 < |cs| && cs[k0] == m;
    if exists k :: 0 <= k < |cs| && k != i && cs[k] == cs[i] {
      var k :| 0 <= k < |cs| && k != i && cs[k] == cs[i];
      assert cs[j] <= cs[k];
    } else {
      var rest := Others(cs, cs[i]);
      OthersSpec(cs, cs[i]);
      assert cs[j] in rest;
      var second := MinOf(rest);
      var j' :| 0 <= j' < |cs| && cs[j'] == second;
      assert j' != i;
    }
  }

  /** The tie-break of `PickIndices` (Huffman_tree.py:44-49). */
  lemma PickTieBreak(cs: seq<int>)
    requires |cs| >= 2
    ensures TieBroken(cs, PickIndices(cs).0, PickIndices(cs).1)
  {
    var p := PickIndices(cs);
    TieBreak(cs, p.0, p.1);
  }

  /** At most one index meets the description of a pick. */
  lemma FirstMinimumUnique(cs: seq<int>, i: int, i': int, skip: int)
    requires FirstMinimumExcept(cs, i, skip) && FirstMinimumExcept(cs, i', skip)
    ensures i == i'
  {
    assert cs[i] <= cs[i'] && cs[i'] <= cs[i];
  }

  /** The two picks are fixed by their description: any pair of indices that
      meets it is the pair `PickIndices` returns. */
  lemma PicksDetermined(cs: seq<int>, i: int, j: int)
    requires |cs| >= 2
    requires FirstMinimumExcept(cs, i, -1) && FirstMinimumExcept(cs, j, i)
    ensures PickIndices(cs) == (i, j)
  {
    var p := PickIndices(cs);
    FirstMinimumUnique(cs, p.0, i, -1);
    FirstMinimumUnique(cs, p.1, j, i);
  }
}
