# Huffman tree construction, verified in Dafny

This project models the class `Node` of `Huffman_tree.py`, the part of the
Huffman-coding program that builds the code tree:

- `count_chars` fills the frequency table `char_counts`. Each character of
  `string` becomes a one-character key with its number of occurrences, and the
  three-character key `"EOF"` gets count 1.
- `build_tree` turns every key into a leaf node, in table order. Its merge loop
  then repeatedly picks two nodes by count, removes them from the working list
  and appends a new parent over them, until one node is left. Finally it copies
  that node's count, table, depth and children into `self`.
- `shift_depth` walks the tree top-down and adds the depth offset.
- `__init__` sets the fields and, when a string is given, runs `build_tree`
  and then `shift_depth`.

## How the model is organised

- `optional.dfy`: the `Option` type, standing for Python's `None`.
- `char_counts.dfy` (module `CharCounting`): the insertion-ordered dict
  `char_counts`, represented as a key list plus a map.
  - `Tally` is the counting loop and `CountTable` is the whole of `count_chars`.
  - The lemmas state what the table holds: its keys, their occurrence counts,
    their first-occurrence order and the total.
- `selection.dfy` (module `Selection`): how the merge loop chooses its two
  picks from the list of counts.
  - It uses `min`, the index lists, the second-smallest count and
    `smallest_indices`.
  - Lemmas state the minimality of the picks and the index-based tie-break.
- `forest.dfy` (module `Forest`): the value view.
  - A node is the datatype `Tree`.
  - `MergeStep` is one pass of the loop, `Huffman` is the whole loop, and
    `Shifted` is `shift_depth` on a tree.
  - Lemmas cover one pass, the whole loop and the depth pass.
- `huffman_tree.dfy` (module `HuffmanTree`): the class `Node`.
  - It has the source's fields, a ghost view (the `Tree` its subtree stands
    for) and a ghost footprint (the nodes below it).
  - `CountChars` and `ShiftDepth` update fields in place.
  - `BuildTree` runs the leaf loop (`MakeLeaves`), the merge loop (`MergeAll`,
    `MergeOnce`, `MakeParent`) and the final copy into `self` (`Adopt`, `Take`)
    over a `seq<Node>` working list.
  - Each method is proved against the specification functions above.

## Model

| member | source | states |
|---|---|---|
| CharCounting.TallyConsistent | Huffman_tree.py:69-74 | every key is listed once, the key list and the dict hold the same keys, and every count is at least 1 |
| CharCounting.Bump | Huffman_tree.py:71-74 | one counting step gives its key one more than its old count, or 1 for a new key, keeps the old keys in order and adds at most one |
| CharCounting.BumpOthers | Huffman_tree.py:71-74 | one counting step adds only its key to the dict and leaves every other key's count alone |
| CharCounting.Tally | Huffman_tree.py:69-74 | the counting loop, started from an empty dict, lists at most one key per character of the text |
| CharCounting.TallyKeys | Huffman_tree.py:70-74 | the counting loop's keys are exactly the one-character strings of the characters of the text |
| CharCounting.EofNotTallied | Huffman_tree.py:70-75 | the counting loop never makes the key "EOF", so setting it to 1 cannot clash with a character |
| CharCounting.TallyOccurrences | Huffman_tree.py:70-74 | each character's count is its number of occurrences in the text |
| CharCounting.TallyOrder | Huffman_tree.py:70-74 | keys are listed in order of first occurrence in the text |
| CharCounting.BumpSum | Huffman_tree.py:71-74 | one counting step raises the total of the counts by one, whether the key is new or known |
| CharCounting.TallySum | Huffman_tree.py:70-74 | the counts add up to the length of the text |
| CharCounting.CountTable | Huffman_tree.py:69-75 | the table of `count_chars` always holds "EOF" |
| CharCounting.CountTableKeys | Huffman_tree.py:69-75 | the table of `count_chars` lists each key once, "EOF" is last with count 1, every other key is a character of the text, every character is a key, every count is positive |
| CharCounting.CountTableOccurrences | Huffman_tree.py:70-75 | in the table each character maps to its number of occurrences |
| CharCounting.CountTableOrder | Huffman_tree.py:70-75 | in the table the character keys come in first-occurrence order, followed by "EOF" |
| CharCounting.CountTableSum | Huffman_tree.py:70-75 | the table's counts add up to the text length plus one |
| CharCounting.CountTableTwoKeys | Huffman_tree.py:70-75 | a non-empty text gives at least two keys, so the merge loop runs |
| CharCounting.CountTableEmpty | Huffman_tree.py:69-75 | the empty text gives exactly `{"EOF": 1}` |
| CharCounting.CountTableAab | Huffman_tree.py:69-75 | the text "aab" gives `{"a": 2, "b": 1, "EOF": 1}` in that order |
| Selection.MinOf | Huffman_tree.py:43 | `min` of the counts is one of them and no count is smaller |
| Selection.IndicesOf | Huffman_tree.py:44 | the index list has at most one entry per count |
| Selection.IndicesOfSpec | Huffman_tree.py:44 | the index comprehension lists, in increasing order, exactly the indices holding the value |
| Selection.OthersSpec | Huffman_tree.py:46 | the filtered counts are exactly the counts different from the smallest |
| Selection.Others | Huffman_tree.py:46 | the filtered list and the index list of the smallest count split the list between them |
| Selection.IndicesOfLeading | Huffman_tree.py:44-47 | the first listed index holds the value and no earlier index does; the second likewise, skipping the first; with one listed index no other index holds the value |
| Selection.SmallestIndices | Huffman_tree.py:43-48 | `smallest_indices` always has at least two entries, so the picks exist |
| Selection.SharedMinimum | Huffman_tree.py:44-49 | when the smallest count is shared, its first two indices are the picks, each the lowest candidate |
| Selection.SingleMinimum | Huffman_tree.py:45-47 | when the smallest count is held once, it is the first pick, every other count is in the filtered list, and the second-smallest indices are appended |
| Selection.SecondMinimum | Huffman_tree.py:45-49 | in that case the second pick holds the smallest of the other counts at its lowest index |
| Selection.PickIndices | Huffman_tree.py:43-49 | the first pick holds the smallest count, at the lowest such index; the second holds the smallest count among all other indices, at the lowest such index |
| Selection.TieBreak | Huffman_tree.py:44-49 | with a shared minimum, the second pick is the next index holding it; otherwise it holds the minimum of the other counts, and no lower index holds that count |
| Selection.PickTieBreak | Huffman_tree.py:44-49 | the picks of the merge loop break ties that way |
| Selection.FirstMinimumUnique | Huffman_tree.py:43-49 | at most one index fits the description of a pick |
| Selection.PicksDetermined | Huffman_tree.py:43-49 | any two indices that fit the description of the picks are the picks |
| Forest.RemoveTwoSlices | Huffman_tree.py:50-51 | removing the two picks is `pop` of the larger index then `pop` of the smaller, with the other nodes in their original order, whichever pick is larger |
| Forest.RemoveTwoForest | Huffman_tree.py:50-51 | removing two trees removes exactly their counts and their leaves |
| Forest.RemoveTwo | Huffman_tree.py:50-51 | removing two distinct indices shortens the list by exactly two |
| Forest.Weights | Huffman_tree.py:43 | the list of counts has one entry per tree, that tree's count |
| Forest.ReplaceByParent | Huffman_tree.py:50-52 | replacing two trees by their parent keeps the total count and the leaves of the list |
| Forest.MergeStep | Huffman_tree.py:43-52 | one pass shrinks the list by exactly one and keeps every tree well formed |
| Forest.MergeStepParent | Huffman_tree.py:44-52 | the appended parent's left child is the lowest-index minimum, its right child the lowest-index minimum of the rest, and its count is their sum |
| Forest.MergeStepPreserves | Huffman_tree.py:50-52 | one pass keeps the total count and the leaves |
| Forest.MergeStepZeroDepth | Huffman_tree.py:52 | one pass keeps every depth at 0 |
| Forest.Huffman | Huffman_tree.py:40-52 | the loop ends with a well-formed tree: leaves carry a value and no children, inner nodes carry no value, two children and the sum of their counts |
| Forest.MergeRounds | Huffman_tree.py:40-52 | after n passes the list is n shorter |
| Forest.HuffmanFacts | Huffman_tree.py:40-52 | the final tree's count is the total of the list, its leaves are the list's leaves, depths stay 0, and with two or more trees the root is an inner node with no value |
| Forest.HuffmanRounds | Huffman_tree.py:40-52 | the loop ends after exactly (number of trees - 1) passes |
| Forest.LeavesAt | Huffman_tree.py:37-38 | the initial list holds, at each index, the leaf of the key at that index with its count |
| Forest.LeavesWellFormed | Huffman_tree.py:37-38 | the initial leaves are well formed and at depth 0 |
| Forest.LeavesOf | Huffman_tree.py:37-38 | the leaf loop makes exactly one leaf per key |
| Forest.LeavesWeight | Huffman_tree.py:37-38 | the initial list's total count is the table's total |
| Forest.LeavesBag | Huffman_tree.py:37-38 | the initial list's leaves are one (key, count) pair per listed key |
| Forest.KeyBagCounts | Huffman_tree.py:37-38 | each key occurs among those pairs as often as it is listed, with its count, and nothing else occurs |
| Forest.HuffmanOf | Huffman_tree.py:36-52 | the tree built from a table is well formed |
| Forest.HuffmanOfFacts | Huffman_tree.py:36-52 | for a table of two or more keys the tree is an inner node with no value, depth 0 everywhere, count equal to the table's total, and leaves exactly the table's keys, each once, with its count |
| Forest.MergeStepAab | Huffman_tree.py:43-52 | on the leaves of "aab", "b" and "EOF" tie at count 1 and merge first, "b" on the left |
| Forest.MergeStepAabRoot | Huffman_tree.py:43-52 | then "a" and the new parent tie at count 2, and "a", first in the list, goes left |
| Forest.HuffmanAab | Huffman_tree.py:40-52 | the loop's tree for "aab" |
| Forest.ShiftedKeepsShape | Huffman_tree.py:14-28 | `shift_depth` changes only depths: shape, counts, values and leaves are unchanged |
| Forest.Shifted | Huffman_tree.py:14-28 | shifting keeps a missing child missing and a present node present, with its count |
| Forest.ShiftedFromZero | Huffman_tree.py:14-28 | from all-zero depths, `shift_depth(shift)` makes every depth equal to `shift` plus the distance from the root |
| Forest.ShiftedRootLeaves | Huffman_tree.py:14-28 | giving an inner root another value and shifting it keeps its leaves |
| Forest.ShiftedNotIdempotent | Huffman_tree.py:21 | `shift_depth` adds rather than sets: run again on a correctly shifted tree, a child lands at depth 2 |
| Forest.ShiftedLeaf | Huffman_tree.py:21-28 | a leaf shifted by d is at depth d |
| Forest.ShiftedAab | Huffman_tree.py:14-28 | the depths of the "aab" tree after `shift_depth()` |
| HuffmanTree.Node.Init | Huffman_tree.py:2-9 | `Node(None, value, count, left, right)` sets exactly the given fields, depth 0, an empty table and no string |
| HuffmanTree.Node.FromString | Huffman_tree.py:2-12 | `Node(s, value)` is valid, made of new nodes, keeps `s` and `value`, holds the table of `s`, and its view is the built and shifted tree |
| HuffmanTree.Node.ShiftDepth | Huffman_tree.py:14-28 | the subtree stays valid and its new view is the old view shifted; only depths change |
| HuffmanTree.Node.BuildTree | Huffman_tree.py:30-61 | the node holds the table of its string and the count, depth and children of the merge loop's last node, keeps its own value and string, and owns only new nodes below it |
| HuffmanTree.Node.Adopt | Huffman_tree.py:54-61 | this node takes the last node's count, depth and children, and as its table that node's recount of the same string |
| HuffmanTree.Node.Take | Huffman_tree.py:55-61 | setting count, depth and children keeps the node valid, with the matching view and footprint |
| HuffmanTree.Node.CountChars | Huffman_tree.py:63-75 | the new table is the table of the string, rebuilt from empty, whatever the table was before; a valid node stays valid with the same view |
| HuffmanTree.MergeAll | Huffman_tree.py:40-52 | the merge loop over real nodes ends with one valid node of new nodes whose view is the tree `Huffman` builds from the leaves |
| HuffmanTree.MakeLeaves | Huffman_tree.py:36-38 | the leaf loop makes one new, separate leaf per key, in table order |
| HuffmanTree.MergeOnce | Huffman_tree.py:43-52 | one pass over real nodes matches one `MergeStep` of their views and adds only the new parent |
| HuffmanTree.MakeParent | Huffman_tree.py:52 | the new parent has the first pick as left child and the second as right child, owns exactly their subtrees and itself, and the list without them plus the parent is well formed |
| HuffmanTree.BuiltRoot | Huffman_tree.py:35-52 | the merge loop's tree for the table of a string is well formed |
| HuffmanTree.BuiltView | Huffman_tree.py:10-12 | the root of `Node(s, value)` has the given value and the count of the merge loop's last node |
| HuffmanTree.BuiltViewNonEmpty | Huffman_tree.py:10-12 | for a non-empty string the root has two well-formed children whose counts add up to its count, the string's length plus one, and every depth is the distance from the root |
| HuffmanTree.BuiltViewLeaves | Huffman_tree.py:36-52 | for a non-empty string the leaves are exactly the table's keys, each once, with its count |
| HuffmanTree.BuiltViewEmpty | Huffman_tree.py:55-61 | for the empty string the root keeps its own value, count 1 and no children: the "EOF" leaf is lost |
| HuffmanTree.ScenarioAab | Huffman_tree.py:2-75 | `Node("aab")` has "a" at depth 1 and "b" and "EOF" under one parent at depth 2 |
| HuffmanTree.BuiltRootAab | Huffman_tree.py:35-52 | the merge loop's tree for "aab" |
| HuffmanTree.Counts | Huffman_tree.py:43 | the list of counts has one entry per node |
| HuffmanTree.CountsAreWeights | Huffman_tree.py:43 | the counts of the working list are the counts of its views |
| HuffmanTree.FormsAppend | Huffman_tree.py:38 | appending a node that shares nothing with the list keeps the list well formed |
| HuffmanTree.FormsRemoveTwo | Huffman_tree.py:50-51 | removing two nodes keeps the list well formed and separates the rest from them |
| HuffmanTree.FormsMerge | Huffman_tree.py:50-52 | replacing two nodes by a new parent of theirs keeps the list well formed, with the parent's view last |

## Left out

- `text_to_huf.py` is left out. It is an interactive front end that reads
  with `input()` and prints. The methods it calls (`write_to_file`,
  `read_from_file`, `get_string`) are not defined in `Huffman_tree.py`.
- Code generation, bit encoding and decoding, byte packing and the file
  format do not appear in `Huffman_tree.py`, so nothing is modelled for them.
- `Node.__str__` (Huffman_tree.py:77-98) is display formatting only.
- The `__main__` demonstration (Huffman_tree.py:101-103) is left out.
- HuffmanTree.Node.FromString: takes no `count`, `left_node` or
  `right_node`. With a string given, `build_tree` overwrites all three.
- HuffmanTree.Node.Init: requires two given children not to share nodes. The
  source accepts any two objects, but `build_tree` only ever passes two
  distinct nodes of its working list.
- HuffmanTree.Node.CountChars and HuffmanTree.Node.BuildTree: require a
  string. In the source, `None` makes the `for` loop raise.
- HuffmanTree.Counts: reads an unset count as 0. In the source every node in
  the working list has a count.
- HuffmanTree.Node.Adopt: copies the table value. The source shares one
  dict object between `self` and the dropped last node, which is not
  observable because neither dict changes afterwards.
- The `int(...)` conversions on lines 43-47 act on Python integers and
  change nothing, so they are not modelled.
- Python integers are unbounded, so Dafny's `int` needs no wrap-around.
- The merge loop's selection (`min`, the list comprehensions, the index
  lists) is modelled by the functions in `Selection`. The methods call those
  functions on the node counts rather than re-running the comprehensions as
  loops.
- HuffmanTree.BuiltViewEmpty: a Huffman tree normally has one leaf per
  distinct symbol, including end-of-stream. For the empty string the code
  keeps `value = None` with no children, so the "EOF" leaf is lost; the model
  follows the code.
- HuffmanTree.Node.FromString: does not state that every node below the top
  keeps an empty table and no string (Huffman_tree.py:4, 9), and neither does
  HuffmanTree.Node.BuildTree. Each of those nodes comes from
  HuffmanTree.Node.Init, whose contract gives it both, and afterwards only the
  top node and the dropped last node of the merge loop get a string. The
  loops do not carry this as an invariant, so it is not proved.
- Strings are sequences of Dafny `char`, which are Unicode scalar values. A
  Python `str` can also hold lone surrogate code points, and the counting loop
  (Huffman_tree.py:70) counts them like any other character. The model cannot
  represent such strings.
