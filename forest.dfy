/**
 * The value view of the Huffman tree and of the merge loop in
 * `Node.build_tree` (Huffman_tree.py:36-52): the working list of nodes is a
 * sequence of trees, one merge step removes the two picked trees and appends
 * their parent, and the loop runs until one tree is left. `shift_depth`
 * (Huffman_tree.py:14-28) is the function `Shifted` on trees.
 */
module Forest {
  import opened Optional
  import opened CharCounting
  import Selection

  /** A node's fields `value`, `count` and `depth` with the views of its two
      children; `Nil` is a missing child (`None`). */
  datatype Tree = Nil | Tree(value: Option<string>, count: Option<int>, depth: int, left: Tree, right: Tree)

  /** The leaf made for one key of the table (Huffman_tree.py:38). */
  function Leaf(key: string, c: int): Tree {
    Tree(Some(key), Some(c), 0, Nil, Nil)
  }

  /** A node's count; only used where the count is set. */
  function Weight(t: Tree): int {
    if t.Tree? && t.count.Some? then t.count.value else 0
  }

  /** A tree the builder can produce: a leaf carries a value and no children,
      and an inner node carries no value, two children and the sum of their
      counts. */
  ghost predicate WellFormed(t: Tree) {
    match t
    case Nil => false
    case Tree(v, c, _, l, r) =>
      && c.Some?
      && if l == Nil && r == Nil then v.Some?
         else v == None && WellFormed(l) && WellFormed(r) && c.value == Weight(l) + Weight(r)
  }

  ghost predicate AllWellFormed(f: seq<Tree>) {
    forall k :: 0 <= k < |f| ==> WellFormed(f[k])
  }

  /** Every depth is 0, as `__init__` leaves it (Huffman_tree.py:5). */
  ghost predicate ZeroDepth(t: Tree) {
    match t
    case Nil => true
    case Tree(_, _, d, l, r) => d == 0 && ZeroDepth(l) && ZeroDepth(r)
  }

  ghost predicate AllZeroDepth(f: seq<Tree>) {
    forall k :: 0 <= k < |f| ==> ZeroDepth(f[k])
  }

  /** Every node's depth is `d` plus its distance from the root of `t`. */
  ghost predicate DepthsFrom(t: Tree, d: int) {
    match t
    case Nil => true
    case Tree(_, _, dt, l, r) => dt == d && DepthsFrom(l, d + 1) && DepthsFrom(r, d + 1)
  }

  /** The (value, count) pairs of the leaves below `t`. */
  function LeafBag(t: Tree): multiset<(Option<string>, Option<int>)> {
    match t
    case Nil => multiset{}
    case Tree(v, c, _, l, r) =>
      if l == Nil && r == Nil then multiset{(v, c)} else LeafBag(l) + LeafBag(r)
  }

  /** The leaves of all the trees of a forest. */
  function ForestBag(f: seq<Tree>): multiset<(Option<string>, Option<int>)> {
    if f == [] then multiset{} else LeafBag(f[0]) + ForestBag(f[1..])
  }

  /** The sum of the counts of a forest. */
  function ForestWeight(f: seq<Tree>): int {
    if f == [] then 0 else Weight(f[0]) + ForestWeight(f[1..])
  }

  /** `[leaf.count for leaf in nodes]`. */
  function Weights(f: seq<Tree>): (ws: seq<int>)
    ensures |ws| == |f| && forall k :: 0 <= k < |f| ==> ws[k] == Weight(f[k])
  {
    seq(|f|, k requires 0 <= k < |f| => Weight(f[k]))
  }

  /** The list without the elements at `i` and `j`, the others kept in their
      relative order; `RemoveTwoSlices` shows it is `s.pop(max(i, j))` followed
      by `s.pop(min(i, j))` (Huffman_tree.py:50-51). */
  function RemoveTwo<T>(s: seq<T>, i: nat, j: nat): (r: seq<T>)
    requires i < |s| && j < |s| && i != j
    ensures |r| == |s| - 2
  {
    var lo := if i < j then i else j;
    var hi := if i < j then j else i;
    seq(|s| - 2, k requires 0 <= k < |s| - 2 => s[if k < lo then k else if k < hi - 1 then k + 1 else k + 2])
  }

  /** One pass of the loop body (Huffman_tree.py:43-52): pick two trees, remove
      them, append their parent (first pick left, second pick right). */
  ghost function MergeStep(f: seq<Tree>): (g: seq<Tree>)
    requires |f| >= 2 && AllWellFormed(f)
    ensures |g| == |f| - 1 && AllWellFormed(g)
  {
    var p := Selection.PickIndices(Weights(f));
    var parent := Tree(None, Some(Weight(f[p.0]) + Weight(f[p.1])), 0, f[p.0], f[p.1]);
    RemoveTwoWellFormed(f, p.0, p.1);
    AppendWellFormed(RemoveTwo(f, p.0, p.1), f[p.0], f[p.1]);
    RemoveTwo(f, p.0, p.1) + [parent]
  }

  /** The tree left when the loop `while len(nodes) > 1` ends (Huffman_tree.py:40-52). */
  ghost function Huffman(f: seq<Tree>): (t: Tree)
    requires |f| >= 1 && AllWellFormed(f)
    ensures WellFormed(t)
    decreases |f|
  {
    if |f| == 1 then f[0] else Huffman(MergeStep(f))
  }

  /** The working list after `n` passes of the loop. */
  ghost function MergeRounds(f: seq<Tree>, n: nat): (g: seq<Tree>)
    requires n < |f| && AllWellFormed(f)
    ensures |g| == |f| - n && AllWellFormed(g)
    decreases n
  {
    if n == 0 then f else MergeRounds(MergeStep(f), n - 1)
  }

  /** The initial working list: one leaf per key, in key order (Huffman_tree.py:37-38). */
  function LeavesOf(keys: seq<string>, m: map<string, int>): (f: seq<Tree>)
    requires forall k :: k in keys ==> k in m
    ensures |f| == |keys|
    decreases |keys|
  {
    if keys == [] then []
    else LeavesOf(keys[..|keys| - 1], m) + [Leaf(keys[|keys| - 1], m[keys[|keys| - 1]])]
  }

  /** The tree the loop ends with for a table: `Huffman` of its leaves. */
  ghost function HuffmanOf(table: CharCounts): (t: Tree)
    requires forall k :: k in table.keys ==> k in table.counts
    requires |table.keys| >= 1
    ensures WellFormed(t)
  {
    LeavesAt(table.keys, table.counts);
    LeavesWellFormed(table.keys, table.counts);
    Huffman(LeavesOf(table.keys, table.counts))
  }

  /** `shift_depth(shift)` on the view (Huffman_tree.py:14-28): the node's depth
      grows by `shift`, and each child is shifted by `shift + 1`. */
  function Shifted(t: Tree, shift: int): (r: Tree)
    ensures (r == Nil) == (t == Nil) && Weight(r) == Weight(t)
  {
    match t
    case Nil => Nil
    case Tree(v, c, d, l, r) => Tree(v, c, d + shift, Shifted(l, shift + 1), Shifted(r, shift + 1))
  }

  // ---------------------------------------------------------------------------
  // Lemmas

  /** Counts and leaves of a forest add up over concatenation. */
  lemma {:induction false} ForestAppend(a: seq<Tree>, b: seq<Tree>)
    ensures ForestWeight(a + b) == ForestWeight(a) + ForestWeight(b)
    ensures ForestBag(a + b) == ForestBag(a) + ForestBag(b)
    decreases |a|
  {
    if a != [] {
      assert (a + b)[1..] == a[1..] + b;
      ForestAppend(a[1..], b);
    } else {
      assert a + b == b;
    }
  }

  /** A tree in front of a forest adds its count and its leaves. */
  lemma ForestCons(x: Tree, b: seq<Tree>)
    ensures ForestWeight([x] + b) == Weight(x) + ForestWeight(b)
    ensures ForestBag([x] + b) == LeafBag(x) + ForestBag(b)
  {
    assert ([x] + b)[0] == x && ([x] + b)[1..] == b;
  }

  /** A forest is its part before `k`, the tree at `k`, and its part after. */
  lemma ForestSplit(s: seq<Tree>, k: nat)
    requires k < |s|
    ensures ForestWeight(s) == ForestWeight(s[..k]) + Weight(s[k]) + ForestWeight(s[k + 1..])
    ensures ForestBag(s) == ForestBag(s[..k]) + LeafBag(s[k]) + ForestBag(s[k + 1..])
  {
    var xb := [s[k]] + s[k + 1..];
    assert s == s[..k] + xb;
    ForestAppend(s[..k], xb);
    ForestCons(s[k], s[k + 1..]);
  }

  /** Taking one tree out of a forest takes out its count and its leaves. */
  lemma ForestRemove(s: seq<Tree>, k: nat)
    requires k < |s|
    ensures ForestWeight(s) == ForestWeight(s[..k] + s[k + 1..]) + Weight(s[k])
    ensures ForestBag(s) == ForestBag(s[..k] + s[k + 1..]) + LeafBag(s[k])
  {
    ForestSplit(s, k);
    ForestAppend(s[..k], s[k + 1..]);
  }

  /** The trees left after `RemoveTwo` are trees of the forest. */
  lemma RemoveTwoWellFormed(f: seq<Tree>, i: nat, j: nat)
    requires i < |f| && j < |f| && i != j && AllWellFormed(f)
    ensures AllWellFormed(RemoveTwo(f, i, j))
  {
  }

  /** `RemoveTwo` is `s.pop(hi)` followed by `s.pop(lo)` for the larger and
      the smaller of the two indices, in either order of the picks. */
  lemma RemoveTwoSlices<T>(s: seq<T>, lo: nat, hi: nat)
    requires lo < hi < |s|
    ensures RemoveTwo(s, lo, hi) == (s[..hi] + s[hi + 1..])[..lo] + (s[..hi] + s[hi + 1..])[lo + 1..]
    ensures RemoveTwo(s, hi, lo) == RemoveTwo(s, lo, hi)
  {
  }

  /** The parent of two trees the builder can produce is one too. */
  lemma AppendWellFormed(r: seq<Tree>, a: Tree, b: Tree)
    requires AllWellFormed(r) && WellFormed(a) && WellFormed(b)
    ensures AllWellFormed(r + [Tree(None, Some(Weight(a) + Weight(b)), 0, a, b)])
  {
    var parent := Tree(None, Some(Weight(a) + Weight(b)), 0, a, b);
    assert WellFormed(parent);
  }

  /** Taking the elements at `lo` and then at `hi` out of a forest. */
  lemma RemoveSlices(f: seq<Tree>, lo: nat, hi: nat)
    requires lo < hi < |f|
    ensures var once := f[..hi] + f[hi + 1..];
      && ForestWeight(f) == ForestWeight(once[..lo] + once[lo + 1..]) + Weight(f[lo]) + Weight(f[hi])
      && ForestBag(f) == ForestBag(once[..lo] + once[lo + 1..]) + LeafBag(f[lo]) + LeafBag(f[hi])
  {
    var once := f[..hi] + f[hi + 1..];
    assert once[lo] == f[lo];
    ForestRemove(f, hi);
    ForestRemove(once, lo);
  }

  /** Taking two trees out of a forest takes out their counts and leaves. */
  lemma RemoveTwoForest(f: seq<Tree>, i: nat, j: nat)
    requires i < |f| && j < |f| && i != j
    ensures ForestWeight(f) == ForestWeight(RemoveTwo(f, i, j)) + Weight(f[i]) + Weight(f[j])
    ensures ForestBag(f) == ForestBag(RemoveTwo(f, i, j)) + LeafBag(f[i]) + LeafBag(f[j])
  {
    if i < j {
      RemoveTwoSlices(f, i, j);
      RemoveSlices(f, i, j);
    } else {
      RemoveTwoSlices(f, j, i);
      RemoveSlices(f, j, i);
    }
  }

  /** A one-tree forest has that tree's count and leaves. */
  lemma ForestSingle(t: Tree)
    ensures ForestWeight([t]) == Weight(t) && ForestBag([t]) == LeafBag(t)
  {
    assert [t][1..] == [];
  }

  /** Appending the parent of `a` and `b` to a forest adds their counts and
      their leaves. */
  lemma AppendParent(r: seq<Tree>, a: Tree, b: Tree)
    requires a != Nil
    ensures var parent := Tree(None, Some(Weight(a) + Weight(b)), 0, a, b);
      && ForestWeight(r + [parent]) == ForestWeight(r) + Weight(a) + Weight(b)
      && ForestBag(r + [parent]) == ForestBag(r) + LeafBag(a) + LeafBag(b)
  {
    var parent := Tree(None, Some(Weight(a) + Weight(b)), 0, a, b);
    ForestAppend(r, [parent]);
    ForestSingle(parent);
    assert LeafBag(parent) == LeafBag(a) + LeafBag(b);
  }

  /** Replacing two trees of a forest by their parent keeps the total count
      and the leaves. */
  lemma ReplaceByParent(f: seq<Tree>, i: nat, j: nat)
    requires i < |f| && j < |f| && i != j && f[i] != Nil
    ensures var parent := Tree(None, Some(Weight(f[i]) + Weight(f[j])), 0, f[i], f[j]);
      && ForestWeight(RemoveTwo(f, i, j) + [parent]) == ForestWeight(f)
      && ForestBag(RemoveTwo(f, i, j) + [parent]) == ForestBag(f)
  {
    RemoveTwoForest(f, i, j);
    AppendParent(RemoveTwo(f, i, j), f[i], f[j]);
  }

  /** A merge step keeps the total count and the leaves. */
  lemma MergeStepPreserves(f: seq<Tree>)
    requires |f| >= 2 && AllWellFormed(f)
    ensures ForestWeight(MergeStep(f)) == ForestWeight(f)
    ensures ForestBag(MergeStep(f)) == ForestBag(f)
  {
    var p := Selection.PickIndices(Weights(f));
    assert WellFormed(f[p.0]);
    MergeStepShape(f);
    ReplaceByParent(f, p.0, p.1);
  }

  /** A merge step keeps depth 0 everywhere. */
  lemma MergeStepZeroDepth(f: seq<Tree>)
    requires |f| >= 2 && AllWellFormed(f) && AllZeroDepth(f)
    ensures AllZeroDepth(MergeStep(f))
  {
    var p := Selection.PickIndices(Weights(f));
    var g := MergeStep(f);
    MergeStepPicked(f);
    forall k | 0 <= k < |g| ensures ZeroDepth(g[k]) {
      if k < |g| - 1 {
        assert g[k] == g[..|g| - 1][k];
      }
    }
  }

  /** A merge step is what is left after the picks, then their parent. */
  lemma MergeStepShape(f: seq<Tree>)
    requires |f| >= 2 && AllWellFormed(f)
    ensures var p := Selection.PickIndices(Weights(f));
      MergeStep(f) == RemoveTwo(f, p.0, p.1) + [Tree(None, Some(Weight(f[p.0]) + Weight(f[p.1])), 0, f[p.0], f[p.1])]
  {
  }

  /** A merge step with the picks given by name. */
  lemma MergeStepOf(f: seq<Tree>, i: nat, j: nat, c: int)
    requires |f| >= 2 && AllWellFormed(f) && (i, j) == Selection.PickIndices(Weights(f))
    requires c == Weights(f)[i] + Weights(f)[j]
    ensures i < |f| && j < |f| && i != j
    ensures MergeStep(f) == RemoveTwo(f, i, j) + [Tree(None, Some(c), 0, f[i], f[j])]
  {
    MergeStepShape(f);
  }

  /** The last element of a merge step and the ones before it, by the picks. */
  lemma MergeStepPicked(f: seq<Tree>)
    requires |f| >= 2 && AllWellFormed(f)
    ensures var p := Selection.PickIndices(Weights(f));
      && MergeStep(f)[|f| - 2] == Tree(None, Some(Weight(f[p.0]) + Weight(f[p.1])), 0, f[p.0], f[p.1])
      && MergeStep(f)[..|f| - 2] == RemoveTwo(f, p.0, p.1)
  {
  }

  /** The parent a merge step appends: its left child is the tree with the
      smallest count (lowest index first), its right child the tree with the
      smallest count among the others (lowest index first), its count the sum
      of theirs; the trees not picked keep their order ahead of it. */
  lemma MergeStepParent(f: seq<Tree>)
    requires |f| >= 2 && AllWellFormed(f)
    ensures forall i, j ::
      Selection.FirstMinimumExcept(Weights(f), i, -1) && Selection.FirstMinimumExcept(Weights(f), j, i) ==>
        && MergeStep(f)[|f| - 2] == Tree(None, Some(Weight(f[i]) + Weight(f[j])), 0, f[i], f[j])
        && MergeStep(f)[..|f| - 2] == RemoveTwo(f, i, j)
  {
    MergeStepPicked(f);
    forall i, j | Selection.FirstMinimumExcept(Weights(f), i, -1) && Selection.FirstMinimumExcept(Weights(f), j, i)
      ensures (i, j) == Selection.PickIndices(Weights(f))
    {
      Selection.PicksDetermined(Weights(f), i, j);
    }
  }

  /** The tree the loop ends with: its count is the forest's total, its leaves
      are the forest's leaves, depths stay 0, and when there was more than one
      tree it is an inner node with two children and no value. */
  lemma {:induction false} HuffmanFacts(f: seq<Tree>)
    requires |f| >= 1 && AllWellFormed(f)
    ensures Weight(Huffman(f)) == ForestWeight(f)
    ensures LeafBag(Huffman(f)) == ForestBag(f)
    ensures AllZeroDepth(f) ==> ZeroDepth(Huffman(f))
    ensures |f| >= 2 ==> Huffman(f).value == None && Huffman(f).left != Nil && Huffman(f).right != Nil
    decreases |f|
  {
    if |f| == 1 {
      assert f[1..] == [];
    } else {
      var g := MergeStep(f);
      MergeStepPreserves(f);
      if AllZeroDepth(f) {
        MergeStepZeroDepth(f);
      }
      HuffmanFacts(g);
      if |g| == 1 {
        assert g[0] == g[|f| - 2];
        MergeStepParent(f);
      }
    }
  }

  /** One pass of the loop leaves a shorter list that ends in the same tree. */
  lemma HuffmanStep(f: seq<Tree>)
    requires |f| >= 2 && AllWellFormed(f)
    ensures |MergeStep(f)| >= 1 && AllWellFormed(MergeStep(f)) && Huffman(MergeStep(f)) == Huffman(f)
  {
  }

  /** The loop makes exactly one merge per tree beyond the first: it ends after
      `|f| - 1` passes. */
  lemma {:induction false} HuffmanRounds(f: seq<Tree>)
    requires |f| >= 1 && AllWellFormed(f)
    ensures Huffman(f) == MergeRounds(f, |f| - 1)[0]
    decreases |f|
  {
    if |f| >= 2 {
      HuffmanRounds(MergeStep(f));
    }
  }

  /** The initial working list holds, at each place, the leaf of the key at
      that place, with that key's count. */
  lemma {:induction false} LeavesAt(keys: seq<string>, m: map<string, int>)
    requires forall k :: k in keys ==> k in m
    ensures |LeavesOf(keys, m)| == |keys|
    ensures forall k :: 0 <= k < |keys| ==> LeavesOf(keys, m)[k] == Leaf(keys[k], m[keys[k]])
    decreases |keys|
  {
    if keys != [] {
      var init := keys[..|keys| - 1];
      assert forall k :: k in init ==> k in keys;
      LeavesAt(init, m);
    }
  }

  /** The leaves are trees the builder can produce, all at depth 0. */
  lemma LeavesWellFormed(keys: seq<string>, m: map<string, int>)
    requires forall k :: k in keys ==> k in m
    ensures AllWellFormed(LeavesOf(keys, m)) && AllZeroDepth(LeavesOf(keys, m))
  {
    LeavesAt(keys, m);
  }

  /** The leaves of the first `i + 1` keys extend those of the first `i`,
      and the leaves of all the keys are those of the whole prefix. */
  lemma LeavesPrefix(keys: seq<string>, m: map<string, int>, i: nat)
    requires forall k :: k in keys ==> k in m
    requires i <= |keys|
    ensures i == |keys| ==> LeavesOf(keys[..i], m) == LeavesOf(keys, m)
    ensures i < |keys| ==> LeavesOf(keys[..i + 1], m) == LeavesOf(keys[..i], m) + [Leaf(keys[i], m[keys[i]])]
  {
    if i < |keys| {
      assert keys[..i + 1][..i] == keys[..i];
    } else {
      assert keys[..i] == keys;
    }
  }

  /** The total count of the leaves is the table's total. */
  lemma {:induction false} LeavesWeight(keys: seq<string>, m: map<string, int>)
    requires forall k :: k in keys ==> k in m
    ensures ForestWeight(LeavesOf(keys, m)) == SumOver(keys, m)
    decreases |keys|
  {
    if keys != [] {
      var init := keys[..|keys| - 1];
      var last := keys[|keys| - 1];
      assert forall k :: k in init ==> k in keys;
      LeavesWeight(init, m);
      ForestAppend(LeavesOf(init, m), [Leaf(last, m[last])]);
      ForestSingle(Leaf(last, m[last]));
    }
  }

  /** The leaves of the initial working list, as (value, count) pairs. */
  function KeyBag(keys: seq<string>, m: map<string, int>): multiset<(Option<string>, Option<int>)>
    requires forall k :: k in keys ==> k in m
    decreases |keys|
  {
    if keys == [] then multiset{}
    else KeyBag(keys[..|keys| - 1], m) + multiset{(Some(keys[|keys| - 1]), Some(m[keys[|keys| - 1]]))}
  }

  /** The leaves under the initial working list are one pair per key. */
  lemma {:induction false} LeavesBag(keys: seq<string>, m: map<string, int>)
    requires forall k :: k in keys ==> k in m
    ensures ForestBag(LeavesOf(keys, m)) == KeyBag(keys, m)
    decreases |keys|
  {
    if keys != [] {
      var init := keys[..|keys| - 1];
      var last := keys[|keys| - 1];
      assert forall k :: k in init ==> k in keys;
      LeavesBag(init, m);
      ForestAppend(LeavesOf(init, m), [Leaf(last, m[last])]);
      ForestSingle(Leaf(last, m[last]));
    }
  }

  /** A key appears in the pairs as often as in the key list, with its count;
      nothing else appears. */
  lemma {:induction false} KeyBagCounts(keys: seq<string>, m: map<string, int>)
    requires forall k :: k in keys ==> k in m
    ensures forall key :: key in m ==> KeyBag(keys, m)[(Some(key), Some(m[key]))] == multiset(keys)[key]
    ensures forall e :: e in KeyBag(keys, m) ==> e.0.Some? && e.0.value in keys && e.1 == Some(m[e.0.value])
    decreases |keys|
  {
    if keys != [] {
      var init := keys[..|keys| - 1];
      var last := keys[|keys| - 1];
      assert keys == init + [last];
      assert forall k :: k in init ==> k in keys;
      KeyBagCounts(init, m);
      assert multiset(keys) == multiset(init) + multiset{last};
    }
  }

  /** The leaves `bag` are exactly the keys of `table`, each once, with its
      count. */
  ghost predicate LeavesMatch(bag: multiset<(Option<string>, Option<int>)>, table: CharCounts) {
    && (forall key :: key in table.counts ==> bag[(Some(key), Some(table.counts[key]))] == 1)
    && (forall e :: e in bag ==> e.0.Some? && e.0.value in table.counts && e.1 == Some(table.counts[e.0.value]))
  }

  /** The tree the loop ends with for a table of at least two keys, each
      listed once: an inner node with no value whose depths are all 0, whose
      count is the table's total, and whose leaves are the table's keys, each
      once, with its count. */
  lemma HuffmanOfFacts(table: CharCounts)
    requires Consistent(table) && |table.keys| >= 2
    ensures var t := HuffmanOf(table);
      && t.value == None && t.left != Nil && t.right != Nil && ZeroDepth(t)
      && Weight(t) == SumOver(table.keys, table.counts)
    ensures LeavesMatch(LeafBag(HuffmanOf(table)), table)
  {
    var keys, m := table.keys, table.counts;
    var f := LeavesOf(keys, m);
    LeavesAt(keys, m);
    LeavesWellFormed(keys, m);
    LeavesWeight(keys, m);
    LeavesBag(keys, m);
    KeyBagCounts(keys, m);
    DistinctOnce(keys);
    HuffmanFacts(f);
  }

  /** Shifting depths leaves the shape, the counts and the leaves alone. */
  lemma {:induction false} ShiftedKeepsShape(t: Tree, shift: int)
    ensures WellFormed(Shifted(t, shift)) == WellFormed(t)
    ensures Weight(Shifted(t, shift)) == Weight(t)
    ensures LeafBag(Shifted(t, shift)) == LeafBag(t)
    ensures t != Nil ==> Shifted(t, shift).Tree? && Shifted(t, shift).value == t.value
    decreases t
  {
    if t.Tree? {
      ShiftedKeepsShape(t.left, shift + 1);
      ShiftedKeepsShape(t.right, shift + 1);
    }
  }

  /** From all-zero depths, `shift_depth(shift)` makes every depth `shift` plus
      the distance from the root; with `shift == 0`, exactly the distance. */
  lemma {:induction false} ShiftedFromZero(t: Tree, shift: int)
    requires ZeroDepth(t)
    ensures DepthsFrom(Shifted(t, shift), shift)
    decreases t
  {
    if t.Tree? {
      ShiftedFromZero(t.left, shift + 1);
      ShiftedFromZero(t.right, shift + 1);
    }
  }

  /** Replacing the value of an inner root and shifting from 0 keeps the
      leaves. */
  lemma ShiftedRootLeaves(t: Tree, value: Option<string>)
    requires t.Tree? && t.left != Nil
    ensures LeafBag(Shifted(Tree(value, t.count, t.depth, t.left, t.right), 0)) == LeafBag(t)
  {
    ShiftedKeepsShape(t.left, 1);
    ShiftedKeepsShape(t.right, 1);
  }

  /** `shift_depth` adds rather than sets (Huffman_tree.py:21): run again on a
      tree whose depths are already right, it pushes a child to depth 2. */
  lemma ShiftedNotIdempotent(t: Tree)
    requires DepthsFrom(t, 0) && t != Nil && t.left != Nil
    ensures Shifted(t, 0).Tree? && Shifted(t, 0).left.Tree? && Shifted(t, 0).left.depth == 2
    ensures Shifted(t, 0) != t
  {
  }

  /** The first pass on the leaves of "aab": "b" and "EOF" tie at count 1 and
      merge, "b" on the left. */
  lemma MergeStepAab()
    ensures var f := [Leaf("a", 2), Leaf("b", 1), Leaf(EofKey, 1)];
      AllWellFormed(f) && MergeStep(f) == [Leaf("a", 2), Tree(None, Some(2), 0, Leaf("b", 1), Leaf(EofKey, 1))]
  {
    var f := [Leaf("a", 2), Leaf("b", 1), Leaf(EofKey, 1)];
    assert AllWellFormed(f);
    assert Weights(f) == [2, 1, 1];
    Selection.PicksDetermined([2, 1, 1], 1, 2);
    MergeStepOf(f, 1, 2, 2);
    assert RemoveTwo(f, 1, 2) == [Leaf("a", 2)];
  }

  /** The second pass: "a" and the new parent tie at count 2 and merge, "a"
      on the left. */
  lemma MergeStepAabRoot()
    ensures var g := [Leaf("a", 2), Tree(None, Some(2), 0, Leaf("b", 1), Leaf(EofKey, 1))];
      AllWellFormed(g) && MergeStep(g) == [Tree(None, Some(4), 0, g[0], g[1])]
  {
    var g := [Leaf("a", 2), Tree(None, Some(2), 0, Leaf("b", 1), Leaf(EofKey, 1))];
    assert WellFormed(g[1]);
    assert AllWellFormed(g);
    assert Weights(g) == [2, 2];
    Selection.PicksDetermined([2, 2], 0, 1);
    MergeStepOf(g, 0, 1, 4);
    assert RemoveTwo(g, 0, 1) == [];
  }

  /** The tree built from the leaves of "aab" (Huffman_tree.py:40-52). */
  lemma HuffmanAab()
    ensures var f := [Leaf("a", 2), Leaf("b", 1), Leaf(EofKey, 1)];
      AllWellFormed(f) &&
      Huffman(f) == Tree(None, Some(4), 0, Leaf("a", 2), Tree(None, Some(2), 0, Leaf("b", 1), Leaf(EofKey, 1)))
  {
    var f := [Leaf("a", 2), Leaf("b", 1), Leaf(EofKey, 1)];
    MergeStepAab();
    HuffmanStep(f);
    MergeStepAabRoot();
    HuffmanStep(MergeStep(f));
  }

  /** A leaf shifted by `d` sits at depth `d`. */
  lemma ShiftedLeaf(key: string, c: int, d: int)
    ensures Shifted(Leaf(key, c), d) == Tree(Some(key), Some(c), d, Nil, Nil)
  {
    assert Shifted(Nil, d + 1) == Nil;
  }

  /** Depths of the tree of "aab" after `shift_depth()`. */
  lemma ShiftedAab()
    ensures Shifted(Tree(None, Some(4), 0, Leaf("a", 2), Tree(None, Some(2), 0, Leaf("b", 1), Leaf(EofKey, 1))), 0) ==
      Tree(None, Some(4), 0,
        Tree(Some("a"), Some(2), 1, Nil, Nil),
        Tree(None, Some(2), 1, Tree(Some("b"), Some(1), 2, Nil, Nil), Tree(Some(EofKey), Some(1), 2, Nil, Nil)))
  {
    ShiftedLeaf("a", 2, 1);
    ShiftedLeaf("b", 1, 2);
    ShiftedLeaf(EofKey, 1, 2);
    assert Shifted(Tree(None, Some(2), 0, Leaf("b", 1), Leaf(EofKey, 1)), 1) ==
      Tree(None, Some(2), 1, Shifted(Leaf("b", 1), 2), Shifted(Leaf(EofKey, 1), 2));
  }
}
