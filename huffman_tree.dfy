/**
 * The class `Node` of Huffman_tree.py: a node of the Huffman tree, whose
 * methods update its fields in place. Each node carries a ghost view (the
 * `Forest.Tree` value of the subtree it roots) and a ghost footprint (the
 * nodes of that subtree); `Valid` ties the fields to the view and keeps the
 * subtrees of the two children apart.
 */
module HuffmanTree {
  import opened Optional
  import opened CharCounting
  import opened Forest
  import Selection

  class Node {
    /** The key a leaf encodes: a one-character string or "EOF". */
    var value: Option<string>
    /** The frequency table; only the top node fills it. */
    var charCounts: CharCounts
    var depth: int
    /** The number of characters below this node. */
    var count: Option<int>
    var leftChild: Node?
    var rightChild: Node?
    /** `string_to_encode`; only the top node has it. */
    var text: Option<string>

    ghost var View: Tree
    ghost var Repr: set<Node>

    ghost predicate Valid()
      reads this, Repr
      decreases Repr
    {
      && this in Repr
      && (leftChild != null ==>
            leftChild in Repr && leftChild.Repr <= Repr && this !in leftChild.Repr && leftChild.Valid())
      && (rightChild != null ==>
            rightChild in Repr && rightChild.Repr <= Repr && this !in rightChild.Repr && rightChild.Valid())
      && (leftChild != null && rightChild != null ==> leftChild.Repr !! rightChild.Repr)
      && View == Tree(value, count, depth, ViewOf(leftChild), ViewOf(rightChild))
    }

    /** `Node(None, value, count, left_node, right_node)`
        (Huffman_tree.py:2-9, no string to encode): all fields as given,
        depth 0, an empty table. */
    constructor Init(value: Option<string>, count: Option<int>, left: Node?, right: Node?)
      requires left != null ==> left.Valid()
      requires right != null ==> right.Valid()
      requires left != null && right != null ==> left.Repr !! right.Repr
      ensures Valid()
      ensures this.value == value && this.count == count && depth == 0
      ensures leftChild == left && rightChild == right && text == None && charCounts == NoCounts
      ensures View == Tree(value, count, 0, ViewOf(left), ViewOf(right))
      ensures Repr == {this} + ReprOf(left) + ReprOf(right)
    {
      this.value := value;
      charCounts := NoCounts;
      depth := 0;
      this.count := count;
      leftChild := left;
      rightChild := right;
      text := None;
      Repr := {this} + ReprOf(left) + ReprOf(right);
      View := Tree(value, count, 0, ViewOf(left), ViewOf(right));
    }

    /** `Node(string_to_encode, value)` (Huffman_tree.py:2-12): the fields
        start as in `__init__` without children, then `build_tree()` and
        `shift_depth()` run. The node is the root of the tree `BuiltView`
        describes, made of new nodes, and keeps the text, the given value and
        the text's table. */
    constructor FromString(s: string, value: Option<string>)
      ensures Valid() && fresh(Repr)
      ensures text == Some(s) && this.value == value
      ensures charCounts == CountTable(s)
      ensures View == BuiltView(s, value)
    {
      this.value := value;
      charCounts := NoCounts;
      depth := 0;
      count := None;
      leftChild := null;
      rightChild := null;
      text := Some(s);
      Repr := {this};
      View := Tree(value, None, 0, Nil, Nil);
      new;
      BuildTree();
      ShiftDepth(0);
    }

    /** `shift_depth(shift)` (Huffman_tree.py:14-28): adds `shift` to this
        node's depth and `shift + 1` to each child's subtree; only depths
        change. */
    method ShiftDepth(shift: int)
      requires Valid()
      modifies Repr`depth, Repr`View
      ensures Valid()
      ensures View == Shifted(old(View), shift)
      decreases Repr
    {
      depth := depth + shift;
      if leftChild != null {
        leftChild.ShiftDepth(shift + 1);
      }
      if rightChild != null {
        rightChild.ShiftDepth(shift + 1);
      }
      View := Tree(value, count, depth, ViewOf(leftChild), ViewOf(rightChild));
    }

    /** `build_tree()` (Huffman_tree.py:30-61): counts the text, makes one
        leaf per key in table order, merges the two picked nodes under a new
        parent until one node is left, and copies that node's count, depth and
        children (not its value) into this node. */
    method BuildTree()
      requires text.Some?
      modifies this
      ensures Valid() && fresh(Repr - {this})
      ensures value == old(value) && text == old(text)
      ensures charCounts == CountTable(text.value)
      ensures var root := BuiltRoot(text.value);
        View == Tree(value, root.count, root.depth, root.left, root.right)
    {
      CountChars();
      var table := charCounts;
      assert (forall k :: k in table.keys ==> k in table.counts) && |table.keys| >= 1 by {
        CountTableKeys(text.value);
      }
      var top := MergeAll(table);
      ghost var made := top.Repr;
      Adopt(top);
      assert Repr - {this} <= made;
    }

    /** The end of `build_tree()` (Huffman_tree.py:54-61): this node takes the
        count, depth and children of the last node of the merge loop, and that
        node's recount of the text as its table. */
    method Adopt(top: Node)
      requires top.Valid() && this !in top.Repr && text.Some?
      modifies this, top`text, top`charCounts
      ensures Valid() && Repr <= {this} + old(top.Repr)
      ensures value == old(value) && text == old(text)
      ensures charCounts == CountTable(text.value)
      ensures View == Tree(value, old(top.View).count, old(top.View).depth, old(top.View).left, old(top.View).right)
    {
      var l, r := top.leftChild, top.rightChild;
      top.text := text;
      top.CountChars();
      charCounts := top.charCounts;
      Take(top.count, top.depth, l, r);
    }

    /** Sets the count, depth and children of this node, keeping the rest. */
    method Take(count: Option<int>, depth: int, left: Node?, right: Node?)
      requires left != null ==> left.Valid() && this !in left.Repr
      requires right != null ==> right.Valid() && this !in right.Repr
      requires left != null && right != null ==> left.Repr !! right.Repr
      modifies this`count, this`depth, this`leftChild, this`rightChild, this`Repr, this`View
      ensures Valid()
      ensures this.count == count && this.depth == depth && leftChild == left && rightChild == right
      ensures View == Tree(value, count, depth, ViewOf(left), ViewOf(right))
      ensures Repr == {this} + ReprOf(left) + ReprOf(right)
    {
      this.count, this.depth, leftChild, rightChild := count, depth, left, right;
      Repr := {this} + ReprOf(left) + ReprOf(right);
      View := Tree(value, count, depth, ViewOf(left), ViewOf(right));
    }

    /** `count_chars()` (Huffman_tree.py:63-75): the table of the text,
        rebuilt from empty, with "EOF" set to 1 at the end. */
    method CountChars()
      requires text.Some?
      modifies this`charCounts
      ensures charCounts == CountTable(text.value)
      ensures old(Valid()) ==> Valid() && View == old(View)
    {
      charCounts := NoCounts;
      var s := text.value;
      var i := 0;
      while i < |s|
        invariant 0 <= i <= |s|
        invariant charCounts == Tally(s[..i])
      {
        var key := [s[i]];
        if key in charCounts.counts {
          charCounts := charCounts.(counts := charCounts.counts[key := charCounts.counts[key] + 1]);
        } else {
          charCounts := CharCounts(charCounts.keys + [key], charCounts.counts[key := 1]);
        }
        assert s[..i + 1][..i] == s[..i];
        i := i + 1;
      }
      assert s[..i] == s;
      charCounts := CharCounts(if EofKey in charCounts.counts then charCounts.keys else charCounts.keys + [EofKey],
                               charCounts.counts[EofKey := 1]);
    }
  }

  /** The working list of `build_tree` from the leaves to the last node
      (Huffman_tree.py:36-52): the node left is the tree `Huffman` builds from
      the leaves, made of new nodes only. */
  method MergeAll(table: CharCounts) returns (top: Node)
    requires forall k :: k in table.keys ==> k in table.counts
    requires |table.keys| >= 1
    ensures top.Valid() && fresh(top.Repr)
    ensures top.View == HuffmanOf(table)
  {
    LeavesAt(table.keys, table.counts);
    LeavesWellFormed(table.keys, table.counts);
    ghost var leaves := LeavesOf(table.keys, table.counts);
    var nodes := MakeLeaves(table);
    ghost var forest := leaves;
    ghost var made := Footprint(nodes);
    while |nodes| > 1
      invariant Forms(nodes, forest) && |forest| >= 1
      invariant Footprint(nodes) <= made && fresh(made)
      invariant AllWellFormed(forest) && Huffman(forest) == Huffman(leaves)
      decreases |nodes|
    {
      ghost var added;
      nodes, added := MergeOnce(nodes, forest);
      made := made + added;
      HuffmanStep(forest);
      forest := MergeStep(forest);
    }
    top := nodes[0];
    assert top.Repr <= Footprint(nodes);
  }

  /** The leaf loop of `build_tree` (Huffman_tree.py:36-38): one new leaf
      per key of the table, in key order. */
  method MakeLeaves(table: CharCounts) returns (nodes: seq<Node>)
    requires forall k :: k in table.keys ==> k in table.counts
    ensures Forms(nodes, LeavesOf(table.keys, table.counts)) && fresh(Footprint(nodes))
  {
    nodes := [];
    ghost var forest: seq<Tree> := [];
    var i := 0;
    while i < |table.keys|
      invariant 0 <= i <= |table.keys|
      invariant forest == LeavesOf(table.keys[..i], table.counts)
      invariant Forms(nodes, forest) && fresh(Footprint(nodes))
    {
      var key := table.keys[i];
      var leaf := new Node.Init(Some(key), Some(table.counts[key]), null, null);
      FormsAppend(nodes, forest, leaf, Leaf(key, table.counts[key]));
      LeavesPrefix(table.keys, table.counts, i);
      nodes := nodes + [leaf];
      forest := forest + [Leaf(key, table.counts[key])];
      i := i + 1;
    }
    LeavesPrefix(table.keys, table.counts, i);
  }

  /** One pass of the merge loop (Huffman_tree.py:43-52): pick two nodes by
      their counts, pop the larger index then the smaller, and append a new
      parent with the first pick on the left and the second on the right. */
  method MergeOnce(nodes: seq<Node>, ghost forest: seq<Tree>) returns (next: seq<Node>, ghost added: set<Node>)
    requires Forms(nodes, forest) && |nodes| >= 2 && AllWellFormed(forest)
    ensures Forms(next, MergeStep(forest))
    ensures fresh(added) && Footprint(next) <= old(Footprint(nodes)) + added
  {
    var counts := Counts(nodes);
    CountsAreWeights(nodes, forest);
    var picked := Selection.PickIndices(counts);
    var first, second := picked.0, picked.1;
    var c := counts[first] + counts[second];
    MergeStepOf(forest, first, second, c);
    next := RemoveTwo(nodes, first, second);
    var parent := MakeParent(nodes, forest, first, second, c);
    next := next + [parent];
    added := {parent};
  }

  /** `Node(None, None, c, nodes[i], nodes[j])` (Huffman_tree.py:52): a new
      parent over two nodes of the working list; the list without them,
      followed by the parent, is formed. */
  method MakeParent(nodes: seq<Node>, ghost forest: seq<Tree>, i: nat, j: nat, c: int) returns (parent: Node)
    requires Forms(nodes, forest) && i < |nodes| && j < |nodes| && i != j
    ensures fresh(parent)
    ensures parent.leftChild == nodes[i] && parent.rightChild == nodes[j]
    ensures parent.Repr == {parent} + nodes[i].Repr + nodes[j].Repr
    ensures Forms(RemoveTwo(nodes, i, j) + [parent], RemoveTwo(forest, i, j) + [Tree(None, Some(c), 0, forest[i], forest[j])])
    ensures Footprint(RemoveTwo(nodes, i, j) + [parent]) <= old(Footprint(nodes)) + {parent}
  {
    parent := new Node.Init(None, Some(c), nodes[i], nodes[j]);
    FormsMerge(nodes, forest, i, j, parent, Tree(None, Some(c), 0, forest[i], forest[j]));
  }

  /** The tree the merge loop ends with for the table of `s`. */
  ghost function BuiltRoot(s: string): (t: Tree)
    ensures WellFormed(t)
  {
    CountTableKeys(s);
    HuffmanOf(CountTable(s))
  }

  /** The view of `Node(s, value)`: the merge loop's tree for the table of
      `s`, with `value` in place of the root's value, shifted from depth 0. */
  ghost function BuiltView(s: string, value: Option<string>): (v: Tree)
    ensures v.Tree? && v.value == value && v.count == BuiltRoot(s).count
  {
    var root := BuiltRoot(s);
    Shifted(Tree(value, root.count, root.depth, root.left, root.right), 0)
  }

  /** For a non-empty text the root of `Node(s)` is an inner node: two
      children the builder can produce whose counts add up to its own count,
      `|s| + 1`, and every node's depth is its distance from the root. */
  lemma BuiltViewNonEmpty(s: string, value: Option<string>)
    requires |s| >= 1
    ensures var v := BuiltView(s, value);
      && v.Tree? && v.value == value && v.count == Some(|s| + 1)
      && WellFormed(v.left) && WellFormed(v.right) && Weight(v.left) + Weight(v.right) == |s| + 1
      && DepthsFrom(v, 0)
  {
    var table := CountTable(s);
    assert Consistent(table) && |table.keys| >= 2 && SumOver(table.keys, table.counts) == |s| + 1 by {
      CountTableKeys(s);
      CountTableSum(s);
      CountTableTwoKeys(s);
    }
    HuffmanOfFacts(table);
    var root := BuiltRoot(s);
    ShiftedFromZero(Tree(value, root.count, root.depth, root.left, root.right), 0);
    ShiftedKeepsShape(root.left, 1);
    ShiftedKeepsShape(root.right, 1);
  }

  /** For a non-empty text the leaves of `Node(s)` are exactly the keys of
      its table, each once, with its count. */
  lemma BuiltViewLeaves(s: string, value: Option<string>)
    requires |s| >= 1
    ensures LeavesMatch(LeafBag(BuiltView(s, value)), CountTable(s))
  {
    CountTableKeys(s);
    CountTableTwoKeys(s);
    HuffmanOfFacts(CountTable(s));
    ShiftedRootLeaves(BuiltRoot(s), value);
  }

  /** For the empty text the loop never runs: the root copies the count 1 and
      the missing children of the only leaf but keeps its own value, so the
      "EOF" leaf is lost (Huffman_tree.py:55-61). */
  lemma BuiltViewEmpty(value: Option<string>)
    ensures BuiltView("", value) == Tree(value, Some(1), 0, Nil, Nil)
  {
    CountTableEmpty();
    var leaves := LeavesOf([EofKey], map[EofKey := 1]);
    assert [EofKey][..0] == [];
    assert LeavesOf([], map[EofKey := 1]) == [];
    assert leaves == [Leaf(EofKey, 1)];
    assert Huffman(leaves) == Leaf(EofKey, 1);
    assert BuiltRoot("") == Leaf(EofKey, 1);
    assert BuiltView("", value) == Shifted(Tree(value, Some(1), 0, Nil, Nil), 0);
    assert Shifted(Nil, 1) == Nil;
  }

  /** `Node("aab")`: the table is {"a": 2, "b": 1, "EOF": 1}; "b" and "EOF"
      tie at the smallest count and merge first, in table order; their parent
      then ties with "a", which comes first in the list and goes left. So "a"
      sits at depth 1 and "b" and "EOF" at depth 2. */
  lemma ScenarioAab()
    ensures CountTable("aab") == CharCounts(["a", "b", EofKey], map["a" := 2, "b" := 1, EofKey := 1])
    ensures BuiltView("aab", None) ==
      Tree(None, Some(4), 0,
        Tree(Some("a"), Some(2), 1, Nil, Nil),
        Tree(None, Some(2), 1, Tree(Some("b"), Some(1), 2, Nil, Nil), Tree(Some(EofKey), Some(1), 2, Nil, Nil)))
  {
    CountTableAab();
    BuiltRootAab();
    ShiftedAab();
  }

  /** The merge loop's tree for "aab", before depths are assigned. */
  lemma BuiltRootAab()
    ensures BuiltRoot("aab") ==
      Tree(None, Some(4), 0, Leaf("a", 2), Tree(None, Some(2), 0, Leaf("b", 1), Leaf(EofKey, 1)))
  {
    CountTableAab();
    var table := CountTable("aab");
    LeavesAt(table.keys, table.counts);
    assert LeavesOf(table.keys, table.counts) == [Leaf("a", 2), Leaf("b", 1), Leaf(EofKey, 1)];
    HuffmanAab();
  }

  /** `[leaf.count for leaf in nodes]` (Huffman_tree.py:43), with an unset
      count read as 0. */
  function Counts(nodes: seq<Node>): (cs: seq<int>)
    reads nodes
    ensures |cs| == |nodes|
  {
    seq(|nodes|, k reads nodes requires 0 <= k < |nodes| =>
      if nodes[k].count.Some? then nodes[k].count.value else 0)
  }

  /** The nodes of all the subtrees in the working list. */
  ghost function Footprint(nodes: seq<Node>): set<Node>
    reads nodes
  {
    set n, o | n in nodes && o in n.Repr :: o
  }

  /** The working list `nodes` holds, in order, valid nodes with the views
      `forest`, no two of them sharing a node. */
  ghost predicate Forms(nodes: seq<Node>, forest: seq<Tree>)
    reads nodes, Footprint(nodes)
  {
    && |nodes| == |forest|
    && (forall k :: 0 <= k < |nodes| ==> nodes[k].Valid() && nodes[k].View == forest[k])
    && (forall a, b :: 0 <= a < b < |nodes| ==> nodes[a].Repr !! nodes[b].Repr)
  }

  /** The counts of the working list are the counts of its views. */
  lemma CountsAreWeights(nodes: seq<Node>, forest: seq<Tree>)
    requires Forms(nodes, forest)
    ensures Counts(nodes) == Weights(forest)
  {
  }

  /** Appending a node that shares nothing with the list keeps it formed. */
  lemma FormsAppend(nodes: seq<Node>, forest: seq<Tree>, n: Node, t: Tree)
    requires Forms(nodes, forest) && n.Valid() && n.View == t
    requires forall k :: 0 <= k < |nodes| ==> n.Repr !! nodes[k].Repr
    ensures Forms(nodes + [n], forest + [t])
    ensures Footprint(nodes + [n]) == Footprint(nodes) + n.Repr
  {
  }

  /** Taking two nodes out of the list keeps it formed. */
  lemma FormsRemoveTwo(nodes: seq<Node>, forest: seq<Tree>, i: nat, j: nat)
    requires Forms(nodes, forest) && i < |nodes| && j < |nodes| && i != j
    ensures Forms(RemoveTwo(nodes, i, j), RemoveTwo(forest, i, j))
    ensures Footprint(RemoveTwo(nodes, i, j)) <= Footprint(nodes)
    ensures forall k :: 0 <= k < |nodes| - 2 ==> RemoveTwo(nodes, i, j)[k].Repr !! nodes[i].Repr + nodes[j].Repr
  {
  }

  /** Replacing two nodes of the list by a new parent of theirs keeps it
      formed, with the parent's view last. */
  lemma FormsMerge(nodes: seq<Node>, forest: seq<Tree>, i: nat, j: nat, parent: Node, t: Tree)
    requires Forms(nodes, forest) && i < |nodes| && j < |nodes| && i != j
    requires parent.Valid() && parent.View == t && parent !in Footprint(nodes)
    requires parent.Repr == {parent} + nodes[i].Repr + nodes[j].Repr
    ensures Forms(RemoveTwo(nodes, i, j) + [parent], RemoveTwo(forest, i, j) + [t])
    ensures Footprint(RemoveTwo(nodes, i, j) + [parent]) <= Footprint(nodes) + {parent}
  {
    FormsRemoveTwo(nodes, forest, i, j);
    var rest := RemoveTwo(nodes, i, j);
    forall k | 0 <= k < |rest|
      ensures parent.Repr !! rest[k].Repr
    {
      assert parent !in rest[k].Repr;
    }
    FormsAppend(rest, RemoveTwo(forest, i, j), parent, t);
  }

  /** The view of a child, `Nil` for `None`. */
  ghost function ViewOf(n: Node?): Tree
    reads n
  {
    if n == null then Nil else n.View
  }

  /** The footprint of a child, empty for `None`. */
  ghost function ReprOf(n: Node?): set<Node>
    reads n
  {
    if n == null then {} else n.Repr
  }
}
