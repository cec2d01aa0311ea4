# Song collection core: ordered trees, red-black insertion, start-point iteration and the song queries

This project is a Dafny model of the core of a song management system
written in Java. The core has four layers:

- **BinarySearchTree**: a plain ordered tree of `Comparable` keys. It
  covers naive leaf insertion that rejects duplicates, the
  `rotate(child, parent)` primitive with its `IllegalArgumentException`
  guard, `contains`/`findNode`, the `size` field with
  `size`/`isEmpty`/`clear`, and the in-order and level-order traversals.
  Both traversals check that they never visit more nodes than `size`.
- **RedBlackTree**: the colour bit of every node, the fixup loop
  `enforceRBTreePropertiesAfterInsert`, and the `insert` override that
  blackens the root.
- **IterableRedBlackTree**: a red-black tree whose insertion walk sends
  keys equal to a node into its left subtree. Its stack-based in-order
  iterator skips every key below a start point set by
  `setIterationStartPoint`.
- **Backend**: the quote-aware CSV field splitter used when reading the
  song file, and the three queries with the state they share:
  - `getRange(low, high)`: the songs in a BPM range, stably sorted by BPM.
    They are saved for later calls.
  - `filterOldSongs(maxYear)`: the saved songs released no later than a
    year.
  - `fiveMostDanceable()`: the five most danceable saved songs that pass
    the year filter, listed from least to most danceable as
    `"<danceability>: <title>"`.

The Dafny files are:

- `outcomes.dfy`: the Java exceptions as `Result` errors, and `Option`
  for nullable arguments.
- `trees.dfy`: one tree datatype with a colour in every node, its
  in-order key sequence, zippers (a focus plus the path of frames up to
  the root) for parent references, and addresses (sequences of
  directions from the root) for `rotate`.
- `binary_search_tree.dfy`, `red_black_tree.dfy`,
  `iterable_red_black_tree.dfy` and `backend.dfy`: one module per Java
  class.

Keys are mathematical integers. `Integer.compareTo` is the sign of the
difference, so comparisons are `<`, `==` and `>`. Java's `null` argument
is `None`, and every exception the core throws is a `Fail` value.
Mutation becomes a function from the old object to the new one. Nothing
in the model touches files, clocks or the console.

The fixup comes in two variants. `AsWritten` follows the source line for
line. `Corrected` differs only in the branch reported under Findings.
`RedBlackTree.Insert` and `IterableRedBlackTree.Insert` model the Java
`insert` and run the fixup as written: `IterableRedBlackTree` extends
`RedBlackTree` and inherits its `insert` (IterableRedBlackTree.java:10-11),
overriding only `insertHelper`. `RedBlackTree.InsertCorrected` and
`IterableRedBlackTree.InsertCorrected` run the corrected fixup.

The code is followed wherever a description of the system says
otherwise, except where "## Left out" says so (`insert(null)` on an empty
tree). In particular, `setIterationStartPoint(null)` installs a
comparator that answers 0. The iterator skips a node only when the
comparison is positive, so a null start point iterates over the whole
tree rather than over nothing (IterableRedBlackTree.java:20-26 and 53).

## Model

| member | source | states |
|---|---|---|
| BinarySearchTree.DescendFindsGap | BinarySearchTree.java:74-105 | From any subtree, the insertion walk either stops at an equal key (only when duplicates are rejected, and exactly when the key is present) or reaches a null child. Every key left of that slot is below the new key and every key right of it is not below it. The walk does not change the tree, and the keys around the slot are exactly the tree's keys. |
| BinarySearchTree.InsertHelperRejectsDuplicate | BinarySearchTree.java:78-80 | insertHelper returns false exactly when the key is already stored, and then leaves the tree object unchanged. |
| BinarySearchTree.InsertHelperAddsKey | BinarySearchTree.java:66-108 | An accepted key is linked as a new red leaf at the slot the walk found, `size` grows by one, and the in-order key sequence gains exactly that key at one position while staying ordered. |
| BinarySearchTree.InsertNullThrows | BinarySearchTree.java:52-56 | insert(null) throws NullPointerException. Any other key is accepted exactly when it is absent. |
| BinarySearchTree.RotateKeepsKeys | BinarySearchTree.java:124-184 | rotate throws IllegalArgumentException exactly when `child` is not a child of `parent`. Otherwise the in-order keys, the node count and `size` are unchanged. |
| BinarySearchTree.RotateRelinks | BinarySearchTree.java:136-183 | After a rotation the child holds the parent's place with its key and colour, and the parent becomes the child's opposite-side child. The child's inner subtree moves across to the parent, while its outer subtree and the parent's other subtree stay on their sides. |
| BinarySearchTree.RotateKeepsOthers | BinarySearchTree.java:124-184 | A rotation changes nothing outside the subtree of the rotated parent. |
| BinarySearchTree.RotateLocalInOrder | BinarySearchTree.java:136-178 | A left or right rotation of one node keeps the in-order keys and the node count of that subtree. |
| BinarySearchTree.FindNodeFinds | BinarySearchTree.java:232-256 | In an ordered tree, findNode returns a node exactly when the key is stored, and that node holds the key. |
| BinarySearchTree.ContainsIffStored | BinarySearchTree.java:207-216 | contains answers whether the key is stored. contains(null) throws NullPointerException. |
| BinarySearchTree.IsEmptyIffNoKeys | BinarySearchTree.java:190-200 | When `size` counts the nodes, isEmpty holds exactly when the root is null, which is when the tree holds no keys. |
| BinarySearchTree.ClearEmpties | BinarySearchTree.java:221-224 | After clear the tree is empty with a consistent `size`, and it contains no key. |
| BinarySearchTree.InOrderTraversal | BinarySearchTree.java:265-291 | The stack loop emits the keys in in-order. It fails with the visit-count error exactly when the tree has more nodes than `size` says. |
| BinarySearchTree.LevelOrderTraversal | BinarySearchTree.java:302-322 | The queue loop emits the keys level by level, left to right. It fails with the visit-count error exactly when the tree has more nodes than `size` says. |
| BinarySearchTree.LevelsCount | BinarySearchTree.java:302-322 | The level-order sequence lists every node of the forest exactly once. |
| BinarySearchTree.ChainLeft | BinarySearchTree.java:343-346 | Inserting 7, 5, 3 into an empty tree builds a chain of left children. |
| BinarySearchTree.RotateRightExample | BinarySearchTree.java:348-355 | A right rotation of that chain at the root's left child gives in-order 3, 5, 7 and level order 5, 3, 7. |
| BinarySearchTree.ChainRight | BinarySearchTree.java:362-365 | Inserting 3, 5, 7 builds a chain of right children. |
| BinarySearchTree.RotateLeftExample | BinarySearchTree.java:367-374 | A left rotation of that chain at the root's right child gives in-order 3, 5, 7 and level order 5, 3, 7. |
| BinarySearchTree.LevelOrderOfThree | BinarySearchTree.java:302-322 | A node with two leaf children is listed root first, then left, then right. |
| BinarySearchTree.RotateUnrelatedThrows | BinarySearchTree.java:377-397 | In the tree built by inserting 10, 5, 15, rotating the root as if it were a child of its own right child throws IllegalArgumentException. |
| RedBlackTree.RotateUpIsRotate | RedBlackTree.java:45-50 | A rotation the fixup performs on its zipper is exactly BinarySearchTree's `rotate(child, parent)` applied at the node's address. |
| RedBlackTree.PlugNoRedRed | RedBlackTree.java:28 | A tree has no red node with a red child exactly when the focus subtree has none, the path above has none, and a red parent of the focus sees a black focus. |
| RedBlackTree.PlugBalanced | RedBlackTree.java:28 | A tree has equal black heights exactly when the focus subtree does and the path above fits the focus's black height. |
| RedBlackTree.RedAuntKeepsInv | RedBlackTree.java:37-42 | The red-aunt recolouring keeps the loop invariant: the only possible red-red edge moves two levels up, and black heights stay equal. |
| RedBlackTree.OuterKeepsInv | RedBlackTree.java:45-50 | The black-aunt outer-grandchild branches (lines 45-50 and the mirror at 58-63) rotate the parent up and swap its colour with the grandparent's, keeping the invariant. |
| RedBlackTree.InnerKeepsInv | RedBlackTree.java:51-55 | The black-aunt inner-grandchild double rotation keeps the no-red-red part of the invariant. With the grandparent recoloured red, as the mirror at 64-69 does, it also keeps black heights equal. |
| RedBlackTree.NoAuntInnerLeftKeepsInv | RedBlackTree.java:74-81 | The no-aunt branch for a right child of a left parent recolours, rotates twice and steps to the old grandparent, keeping the invariant. |
| RedBlackTree.StepKeepsInv | RedBlackTree.java:28-103 | Every branch of one loop iteration keeps the invariant. For the as-written variant this is the no-red-red part only. |
| RedBlackTree.Step | RedBlackTree.java:28-103 | One pass of the loop body keeps the in-order keys and moves the focus strictly closer to the root, so the loop terminates. |
| RedBlackTree.FixupRestores | RedBlackTree.java:24-105 | Started from a new red leaf in a red-black tree, the loop terminates without reaching the null grandparent. It leaves no red node with a red child, and with the corrected branch it keeps black heights equal. |
| RedBlackTree.Fixup | RedBlackTree.java:24-105 | The loop only recolours and rotates, so the tree it leaves holds the same keys in the same order. |
| RedBlackTree.InsertWith | RedBlackTree.java:113-125 | insert(null) throws NullPointerException. Otherwise insert returns what insertHelper returns and leaves the same `size` and in-order keys, because the fixup only recolours and rotates. |
| RedBlackTree.InsertCorrectedKeepsRedBlack | RedBlackTree.java:51-55 | With the fixup corrected at 51-55, inserting into a valid red-black tree gives a valid red-black tree (ordered, black root, no red-red edge, equal black heights, `size` consistent). The result is true exactly when the key was absent. A rejected key leaves the tree unchanged, and an accepted one joins the in-order keys at one position. |
| RedBlackTree.InsertKeepsRedRed | RedBlackTree.java:24-125 | insert as written keeps the tree ordered, `size` consistent, the root black and no red node with a red child. It accepts exactly the absent keys, leaves the tree unchanged on rejection, and an accepted key joins the in-order keys at one position. |
| RedBlackTree.ExampleNoAuntRightLeft | RedBlackTree.java:133-154 | Inserting 5, 15, 10 gives black 10 with red children 5 and 15. |
| RedBlackTree.ExampleRedAunt | RedBlackTree.java:161-188 | Inserting 10, 5, 15, 3 gives black 10 over black 5 and 15, with red 3 under 5. |
| RedBlackTree.ExampleEightKeys | RedBlackTree.java:194-248 | Inserting 2, 1, 4, 5, 9, 3, 6, 7 gives the colours and shape the test expects, insertion by insertion. |
| RedBlackTree.SevenKeysBuilt | RedBlackTree.java:113-125 | Inserting 20, 10, 30, 5, 15, 12, 17 with the fixup as written builds the tree used under Findings. |
| RedBlackTree.AsWrittenBreaksBlackHeight | RedBlackTree.java:51-55 | That tree is a valid red-black tree, but after inserting 13 with the fixup as written its black heights differ. |
| RedBlackTree.CorrectedKeepsBlackHeight | RedBlackTree.java:64-69 | With the grandparent recoloured as in the mirror branch, inserting 13 into the same tree gives a valid red-black tree. |
| IterableRedBlackTree.Skips | IterableRedBlackTree.java:53 | The iterator skips a node exactly when a key was given as start point and the node's key is below it. The default comparator and the null-start comparator skip nothing. |
| IterableRedBlackTree.SetIterationStartPoint | IterableRedBlackTree.java:19-31 | The tree is unchanged, and afterwards exactly the keys below the given key are skipped. A null start point skips nothing. |
| IterableRedBlackTree.DescendAlwaysSlots | IterableRedBlackTree.java:91-134 | The overriding insertion walk never rejects a key: equal keys go left (line 107). |
| IterableRedBlackTree.InsertVariant | IterableRedBlackTree.java:91-134 | With either fixup, insert(null) throws NullPointerException. Every other key is accepted (the override always answers true), `size` grows by one, and the start point is kept. |
| IterableRedBlackTree.InsertKeepsRedRed | IterableRedBlackTree.java:91-134 | The inherited insert, with the fixup as written, keeps an ordered tree ordered with duplicates allowed, keeps `size` counting the nodes, the root black and no red node with a red child. The in-order keys gain the new key at one position. |
| IterableRedBlackTree.InheritedInsertBreaksBlackHeight | IterableRedBlackTree.java:10-11 | The subclass inherits insert and its fixup: inserting 13 into a valid iterable tree holding 20, 10, 30, 5, 15, 12, 17 leaves unequal black heights. |
| IterableRedBlackTree.InsertCorrectedKeepsRedBlack | RedBlackTree.java:51-55 | With the old grandparent recoloured red, inserting into a valid iterable tree gives a valid red-black tree whose in-order keys gain the key at one position. |
| IterableRedBlackTree.KeptConcat | IterableRedBlackTree.java:46-61 | Skipping keys below the start point distributes over concatenation of key sequences. |
| IterableRedBlackTree.BuildStackPending | IterableRedBlackTree.java:46-61 | Pushing a subtree's left spine onto the stack, without the skipped nodes, makes the stack promise exactly that subtree's kept in-order keys in front of what it promised before. |
| IterableRedBlackTree.BuildStack | IterableRedBlackTree.java:46-61 | buildStackHelper only pushes nodes on top of the existing stack, and every entry it pushes is a node. |
| IterableRedBlackTree.Next | IterableRedBlackTree.java:63-79 | next on an empty stack throws NoSuchElementException. Otherwise it succeeds, keeps the start point and shrinks the work left. |
| IterableRedBlackTree.NextPending | IterableRedBlackTree.java:67-79 | next returns the first key the stack still promises, and the new stack promises the rest. |
| IterableRedBlackTree.IterationOrder | IterableRedBlackTree.java:33-79 | On an ordered tree, the iterator yields the in-order keys except those below the start point. |
| IterableRedBlackTree.IterationFromStartPoint | IterableRedBlackTree.java:33-79 | On an ordered tree with a start key, the iterator yields the ascending suffix of the keys that begins at the first key not below it. Without a start key it yields every key in order. |
| IterableRedBlackTree.IterateAll | IterableRedBlackTree.java:33-79 | Calling next while hasNext holds collects exactly the kept in-order keys. Afterwards hasNext is false and next throws NoSuchElementException. |
| IterableRedBlackTree.DrainLoop | IterableRedBlackTree.java:63-79 | Calling next while hasNext holds, from any well-formed stack, collects exactly the keys that stack promises, in order, and ends with next throwing NoSuchElementException. |
| IterableRedBlackTree.FiveKeysBuilt | IterableRedBlackTree.java:142-147 | Inserting 4, 2, 1, 5, 3 into a new iterable tree builds the expected red-black tree. |
| IterableRedBlackTree.TestIntegerIteration | IterableRedBlackTree.java:140-161 | Iterating that tree yields 1, 2, 3, 4, 5. |
| IterableRedBlackTree.TestStartingPointIteration | IterableRedBlackTree.java:188-207 | With start point 3, iterating that tree yields 3, 4, 5. |
| Backend.SplitFields | Backend.java:40-54 | The character loop splits a line at commas outside double quotes, drops the quotes, and returns one field per separating comma plus one. Joining the fields with commas gives back the line without its quotes. |
| Backend.JoinFields | Backend.java:40-54 | The splitter loses nothing but quotes and separating commas. |
| Backend.Selected | Backend.java:101-106 | The getRange filter keeps only songs whose BPM is within the bounds and whose year passes the year filter. |
| Backend.SelectedCounts | Backend.java:101-106 | A song occurs in the filtered list exactly as often as in the iterated songs when it is in range, and otherwise not at all. |
| Backend.SortByKeyPermutes | Backend.java:109 | Sorting by BPM reorders the songs without adding or dropping any. |
| Backend.SortByKeySorted | Backend.java:109 | The sorted list is in non-decreasing key order. |
| Backend.SortByKeyStable | Backend.java:109 | Songs with equal keys keep their relative order, as `List.sort` guarantees. |
| Backend.StableSortIsUnique | Backend.java:109 | Two key-sorted lists that agree on the order of each key's songs are equal, so any stable sort yields the model's result. |
| Backend.GetRange | Backend.java:93-120 | getRange sets the called flag, keeps the year filter, saves a BPM-sorted list and returns that list's titles in order. |
| Backend.GetRangeCounts | Backend.java:101-112 | The saved list holds every iterated song that is in range, as often as it was iterated, and no other song. |
| Backend.GetRangeKeepsOrder | Backend.java:101-112 | Among the saved songs, those with equal BPM keep the order in which the iterator handed them out. |
| Backend.FilterOldSongs | Backend.java:137-156 | filterOldSongs stores the year and leaves the saved list and flag alone. Before getRange it returns an empty list; afterwards it returns, in saved order, the titles of the saved songs from that year or earlier. |
| Backend.NotAfterConcat | Backend.java:137-156 | The year filter keeps the saved order: filtering a concatenation of two lists gives the two filtered lists, concatenated. |
| Backend.NotAfterCounts | Backend.java:143-148 | The year filter keeps each song released no later than the year as often as it occurs, and drops all others. |
| Backend.FiveMostDanceable | Backend.java:172-201 | Without a prior getRange it throws IllegalStateException. Otherwise it returns min(5, n) entries, where n counts the saved songs that pass the year filter, each entry formatted from the chosen songs in turn. |
| Backend.Cut | Backend.java:186-193 | Sorting the year-filtered songs by descending danceability and taking the first min(5, n) splits them into a chosen part and a rest. The two parts together hold exactly those songs in descending danceability, and the reported list is the chosen part reversed. |
| Backend.TopDanceableChoice | Backend.java:178-199 | The chosen songs are min(5, n) of the year-filtered songs, listed in ascending danceability. No song left out is more danceable than one chosen. |
| Backend.DecimalRoundTrip | Backend.java:192 | The decimal text that string concatenation gives an int reads back as the same int. |
| Backend.TestRange | BackendDeveloperTests.java:51-73 | BPM range 200 to 206 over three songs returns Song 1 and Song 2, slowest first. |
| Backend.TestRangeCase2 | BackendDeveloperTests.java:79-103 | A year filter set before getRange returns nothing yet. The later getRange of 180 to 186 returns Song 2 before Song 1. |
| Backend.TestFilterOldSongs | BackendDeveloperTests.java:109-116 | filterOldSongs before getRange returns an empty list. |
| Backend.TestFilterOldSongsCase2 | BackendDeveloperTests.java:119-144 | After getRange, filtering at 2014 drops only the 2015 song and keeps BPM order. |
| Backend.FiveOfSix | BackendDeveloperTests.java:150-189 | For any six songs with BPM 123, year 2010 and danceability 200 to 205, getRange(121, 131) then filterOldSongs(2010) makes fiveMostDanceable report the entries of songs 2 to 6, least danceable first. |
| Backend.TestFiveMostDanceable | BackendDeveloperTests.java:150-189 | For the test's six songs the entries are "201: Song 2" to "205: Song 6". |

## Left out

- readData (Backend.java:29-75): file access, the header line, `Integer.parseInt` of the numeric fields and the `Song` construction are not modelled. Only the field splitter inside it is.
- Backend.GetRange: the songs the tree's iterator hands out are a parameter. `Song.compareTo` answers 0 for every pair, so their order is whatever the collection implementation gives; the Frontend and the placeholder collection are not part of this model.
- Backend.GetRange: its own contract states order, titles and flags. What the saved list contains is stated by Backend.GetRangeCounts and Backend.GetRangeKeepsOrder.
- Integer width: Java's `int` is 32 bits, but keys, years, BPM and danceability are unbounded integers here. None of the modelled code does arithmetic on them, only comparisons and decimal printing.
- String keys: the iterable tree is modelled with integer keys only. The string-iteration test at IterableRedBlackTree.java:164-185 has the same shape as the integer one.
- Iterator invalidation: an iterator is a value over the tree it was built from. Java's behaviour after the tree changes under a live iterator is not modelled.
- Traversal text: toInOrderString, toLevelOrderString and toString are modelled as key sequences. Their bracket-and-comma text is left out.
- RedBlackTree.InsertWith, IterableRedBlackTree.InsertVariant: `insert(null)` on an empty Java tree stores a node holding null instead of throwing. The override wraps the key in a node before `insertHelper` sees it, and the key is first dereferenced only when it is compared with an existing key. The model throws NullPointerException in every state, as the documentation of BinarySearchTree.insert promises (BinarySearchTree.java:50).
- RedBlackTree.InsertKeepsRedRed: does not promise equal black heights, because the fixup as written breaks them (see Findings). RedBlackTree.InsertCorrectedKeepsRedBlack states them for the corrected insert.
- IterableRedBlackTree.SetIterationStartPoint: Java accepts any `Comparable<T>` as start point (IterableRedBlackTree.java:19). The model takes only a key or null; a start point whose comparison is not the order of the keys is not modelled, and the suffix shape of IterableRedBlackTree.IterationFromStartPoint is stated for key start points only.
- IterableRedBlackTree.InsertKeepsRedRed: does not promise equal black heights, because the inherited fixup breaks them (see Findings). IterableRedBlackTree.InsertCorrectedKeepsRedBlack states them for the corrected insert.
- RedBlackTree.Fixup: when a red node's red parent is the root, the Java loop dereferences a null grandparent. The model returns NullPointerException there, and RedBlackTree.FixupRestores shows that a valid tree never reaches that point.
- The `main` methods, JUnit plumbing and the Frontend command loop are not modelled.

## Findings

| source | as written | input that shows it | evidently intended | confidence | as-written member | corrected member |
|---|---|---|---|---|---|---|
| RedBlackTree.java:51-55 | With a black aunt, a left-child parent and a right-child node, the fixup rotates twice and blackens the node. It leaves the old grandparent black, now one level lower, so paths through it gain a black node. | Insert 20, 10, 30, 5, 15, 12, 17, then 13 | Recolour the old grandparent red after the double rotation, as the mirror branch at RedBlackTree.java:64-69 does | not executed | RedBlackTree.AsWrittenBreaksBlackHeight | RedBlackTree.InsertCorrectedKeepsRedBlack |
| RedBlackTree.java:51-55 | IterableRedBlackTree inherits insert, and with it the same branch; its own insertHelper only changes where equal keys go. | Into an iterable tree holding 20, 10, 30, 5, 15, 12, 17, insert 13 | The same recolouring of the old grandparent | not executed | IterableRedBlackTree.InheritedInsertBreaksBlackHeight | IterableRedBlackTree.InsertCorrectedKeepsRedBlack |

`RedBlackTree.InsertCorrectedKeepsRedBlack` and
`IterableRedBlackTree.InsertCorrectedKeepsRedBlack` prove that the
corrected insertion preserves every red-black property on all inputs,
for both duplicate policies. `RedBlackTree.CorrectedKeepsBlackHeight`
shows the corrected fixup on the same input. The insertions as written,
`RedBlackTree.Insert` and `IterableRedBlackTree.Insert`, keep
every property except equal black heights
(`RedBlackTree.InsertKeepsRedRed`,
`IterableRedBlackTree.InsertKeepsRedRed`).
