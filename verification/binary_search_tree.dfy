/** The plain ordered tree of BinarySearchTree.java: naive leaf insertion,
    the `rotate` primitive, lookup, size bookkeeping and the two diagnostic
    traversals with their visit-count guard. */
module BinarySearchTree {
  import opened Trees
  import opened Outcomes

  /** The fields of a tree object: `root` (Leaf when empty) and the
      incrementally maintained `size`. */
  datatype Collection = Collection(root: Tree, size: nat)

  function Empty(): Collection {
    Collection(Leaf, 0)
  }

  /** The `size` field agrees with the number of nodes. */
  predicate SizeAgrees(c: Collection) {
    c.size == Size(c.root)
  }

  /** How the insertion walk treats a key equal to the node it is at:
      BinarySearchTree.insertHelper stops and rejects, the override in
      IterableRedBlackTree descends left. */
  datatype DuplicatePolicy = RejectEqual | EqualGoesLeft

  /** The in-order ordering each policy maintains. */
  predicate Ordered(policy: DuplicatePolicy, s: seq<int>) {
    if policy == RejectEqual then StrictlyAscending(s) else Ascending(s)
  }

  // ---------------------------------------------------------------------
  // Insertion
  // ---------------------------------------------------------------------

  /** The `while (true)` walk of insertHelper, with `current` as the focus
      `t` and the way back up as `ps`: it returns the path of the empty
      child slot where the new node is linked, or None when an equal key
      is met and the policy rejects it. */
  function Descend(t: Tree, k: int, policy: DuplicatePolicy, ps: Path): Option<Path>
  {
    match t
    case Leaf => Some(ps)
    case Node(c, l, key, r) =>
      if policy == RejectEqual && k == key then None
      else if k < key || (policy == EqualGoesLeft && k == key) then
        Descend(l, k, policy, [Frame(Left, c, key, r)] + ps)
      else
        Descend(r, k, policy, [Frame(Right, c, key, l)] + ps)
  }

  /** The slot insertHelper links a new node for `k` into. */
  function Slot(t: Tree, k: int, policy: DuplicatePolicy): Option<Path> {
    Descend(t, k, policy, [])
  }

  /** insertHelper: link a new red node into the slot, or report the
      duplicate. The pair is (tree after the call, returned boolean). */
  function InsertHelper(c: Collection, k: int, policy: DuplicatePolicy): (Collection, bool) {
    match Slot(c.root, k, policy)
    case None => (c, false)
    case Some(ps) => (Collection(Plug(NewNode(k), ps), c.size + 1), true)
  }

  /** BinarySearchTree.insert: a null key (None) throws, otherwise the
      duplicate-rejecting insertHelper runs. */
  function Insert(c: Collection, data: Option<int>): Result<(Collection, bool)> {
    match data
    case None => Fail(NullPointer)
    case Some(k) => Ok(InsertHelper(c, k, RejectEqual))
  }

  lemma AscendingConcat(a: seq<int>, b: seq<int>)
    requires Ascending(a + b)
    ensures Ascending(a) && Ascending(b)
    ensures forall x, y :: x in a && y in b ==> x <= y
  {
    forall i, j | 0 <= i < j < |b|
      ensures b[i] <= b[j]
    {
      assert b[i] == (a + b)[|a| + i] && b[j] == (a + b)[|a| + j];
    }
    forall i, j | 0 <= i < j < |a|
      ensures a[i] <= a[j]
    {
      assert a[i] == (a + b)[i] && a[j] == (a + b)[j];
    }
    forall x, y | x in a && y in b
      ensures x <= y
    {
      var i :| 0 <= i < |a| && a[i] == x;
      var j :| 0 <= j < |b| && b[j] == y;
      assert (a + b)[i] == x && (a + b)[|a| + j] == y;
    }
  }

  /** The ordering facts one step of the walk needs: a node's key splits
      the sorted whole into a left part and a right part. */
  lemma GapSplit(L: seq<int>, A: seq<int>, key: int, B: seq<int>, R: seq<int>)
    requires Ascending(L + (A + [key] + B) + R)
    ensures L + (A + [key] + B) + R == L + A + ([key] + B + R)
    ensures L + (A + [key] + B) + R == (L + A + [key]) + B + R
    ensures Ascending(L + A + ([key] + B + R))
    ensures Ascending((L + A + [key]) + B + R)
    ensures forall y :: y in B ==> key <= y
    ensures forall y :: y in A ==> y <= key
  {
    ConcatRegroup(L, A, [key], B, R);
    AscendingConcat(L + A + [key], B + R);
    AscendingConcat(L + A, [key] + B + R);
    assert (L + A + [key]) + (B + R) == L + (A + [key] + B) + R;
    assert (L + A) + ([key] + B + R) == L + (A + [key] + B) + R;
    forall y | y in B
      ensures key <= y
    {
      assert key in L + A + [key] && y in B + R;
    }
    forall y | y in A
      ensures y <= key
    {
      assert y in L + A && key in [key] + B + R;
    }
  }

  /** The walk keeps the new key between the keys on its left and its right
      and ends in an empty slot of the tree it started in; it rejects
      exactly when the policy rejects and the key is present. */
  lemma {:induction false} DescendFindsGap(t: Tree, k: int, policy: DuplicatePolicy, ps: Path)
    requires Ascending(KeysLeftOf(ps) + InOrder(t) + KeysRightOf(ps))
    requires forall x :: x in KeysLeftOf(ps) ==> x < k
    requires forall x :: x in KeysRightOf(ps) ==> k <= x
    requires policy == RejectEqual ==> k !in KeysRightOf(ps)
    ensures Descend(t, k, policy, ps).None? <==> policy == RejectEqual && k in InOrder(t)
    ensures Descend(t, k, policy, ps).Some? ==>
      var qs := Descend(t, k, policy, ps).value;
      && Plug(Leaf, qs) == Plug(t, ps)
      && (forall x :: x in KeysLeftOf(qs) ==> x < k)
      && (forall x :: x in KeysRightOf(qs) ==> k <= x)
      && (policy == RejectEqual ==> k !in KeysRightOf(qs))
      && KeysLeftOf(qs) + KeysRightOf(qs) == KeysLeftOf(ps) + InOrder(t) + KeysRightOf(ps)
  {
    match t
    case Leaf =>
      assert KeysLeftOf(ps) + InOrder(t) + KeysRightOf(ps) == KeysLeftOf(ps) + KeysRightOf(ps);
    case Node(c, l, key, r) =>
      var L, R := KeysLeftOf(ps), KeysRightOf(ps);
      var IL, IR := InOrder(l), InOrder(r);
      assert InOrder(t) == IL + [key] + IR;
      GapSplit(L, IL, key, IR, R);
      if policy == RejectEqual && k == key {
      } else if k < key || (policy == EqualGoesLeft && k == key) {
        var ps' := [Frame(Left, c, key, r)] + ps;
        assert ps'[1..] == ps;
        assert KeysRightOf(ps') == [key] + IR + R;
        assert KeysLeftOf(ps') == L;
        DescendFindsGap(l, k, policy, ps');
        assert policy == RejectEqual ==> k !in IR;
      } else {
        var ps' := [Frame(Right, c, key, l)] + ps;
        assert ps'[1..] == ps;
        assert KeysLeftOf(ps') == L + IL + [key];
        assert KeysRightOf(ps') == R;
        assert forall x :: x in KeysLeftOf(ps') ==> x < k;
        DescendFindsGap(r, k, policy, ps');
        assert k !in IL;
      }
  }

  /** A duplicate-rejecting insertHelper returns false exactly when an equal
      key is stored, and then leaves root and size as they were. */
  lemma InsertHelperRejectsDuplicate(c: Collection, k: int)
    requires StrictlyAscending(InOrder(c.root))
    ensures !InsertHelper(c, k, RejectEqual).1 <==> k in InOrder(c.root)
    ensures k in InOrder(c.root) ==> InsertHelper(c, k, RejectEqual).0 == c
  {
    DescendFindsGap(c.root, k, RejectEqual, []);
  }

  /** A key that fits between `L` and `R` can be placed there without
      breaking the policy's ordering. */
  lemma InsertBetween(policy: DuplicatePolicy, L: seq<int>, R: seq<int>, k: int)
    requires Ordered(policy, L + R)
    requires forall x :: x in L ==> x < k
    requires forall x :: x in R ==> k <= x
    requires policy == RejectEqual ==> k !in R
    ensures Ordered(policy, L + [k] + R)
  {
    var s, t := L + R, L + [k] + R;
    forall i, j | 0 <= i < j < |t|
      ensures t[i] <= t[j]
      ensures policy == RejectEqual ==> t[i] < t[j]
    {
      if j < |L| {
        assert t[i] == s[i] && t[j] == s[j];
      } else if i > |L| {
        assert t[i] == s[i - 1] && t[j] == s[j - 1];
      } else if i == |L| {
        assert t[j] == R[j - |L| - 1];
        assert t[j] in R;
      } else if j == |L| {
        assert t[i] == L[i];
        assert t[i] in L;
      } else {
        assert t[i] == s[i] && t[j] == s[j - 1];
      }
    }
  }

  /** An accepted insertion links a new red leaf into an empty slot of the
      old tree (nothing else changes), raises `size` by one and yields the
      old in-order sequence with `k` inserted, still ordered. */
  lemma InsertHelperAddsKey(c: Collection, k: int, policy: DuplicatePolicy)
    requires Ordered(policy, InOrder(c.root))
    requires policy == RejectEqual ==> k !in InOrder(c.root)
    ensures InsertHelper(c, k, policy).1
    ensures
      var r := InsertHelper(c, k, policy).0;
      && r.size == c.size + 1
      && (SizeAgrees(c) ==> SizeAgrees(r))
      && Ordered(policy, InOrder(r.root))
      && (exists i :: 0 <= i <= |InOrder(c.root)| &&
            InOrder(r.root) == InOrder(c.root)[..i] + [k] + InOrder(c.root)[i..])
      && Slot(c.root, k, policy).Some?
      && Plug(Leaf, Slot(c.root, k, policy).value) == c.root
      && r.root == Plug(NewNode(k), Slot(c.root, k, policy).value)
      && Subtree(r.root, AddressOf(Slot(c.root, k, policy).value)) == NewNode(k)
  {
    var s := InOrder(c.root);
    assert Ascending(KeysLeftOf([]) + s + KeysRightOf([])) by {
      assert KeysLeftOf([]) + s + KeysRightOf([]) == s;
    }
    DescendFindsGap(c.root, k, policy, []);
    var ps := Slot(c.root, k, policy).value;
    var r := InsertHelper(c, k, policy).0;
    var L, R := KeysLeftOf(ps), KeysRightOf(ps);
    PlugInOrder(NewNode(k), ps);
    PlugAddress(NewNode(k), ps);
    assert InOrder(NewNode(k)) == [k];
    assert InOrder(r.root) == L + [k] + R;
    assert s == L + R;
    assert s[..|L|] == L && s[|L|..] == R;
    InsertBetween(policy, L, R, k);
    InOrderCountsNodes(c.root);
    InOrderCountsNodes(r.root);
  }

  /** insert(null) throws and changes nothing; a non-null key runs the
      duplicate-rejecting insertHelper. */
  lemma InsertNullThrows(c: Collection, k: int)
    requires StrictlyAscending(InOrder(c.root))
    ensures Insert(c, None) == Fail(NullPointer)
    ensures Insert(c, Some(k)).Ok?
    ensures Insert(c, Some(k)).value.1 <==> k !in InOrder(c.root)
  {
    InsertHelperRejectsDuplicate(c, k);
  }

  // ---------------------------------------------------------------------
  // Rotation
  // ---------------------------------------------------------------------

  /** `child.up == parent` for two non-null references: the node at
      `child` is a child of the node at `parent`. */
  predicate ChildOf(t: Tree, child: Address, parent: Address) {
    IsNode(t, child) && |child| == |parent| + 1 && parent <= child
  }

  /** The rotation of node `p` with its `d` child: a right rotation when the
      child is the left child, a left rotation when it is the right one. */
  function RotateLocal(p: Tree, d: Dir): Tree {
    match p
    case Leaf => Leaf
    case Node(pc, pl, pk, pr) =>
      if d == Left then
        match pl
        case Leaf => p
        case Node(cc, cl, ck, cr) => Node(cc, cl, ck, Node(pc, cr, pk, pr))
      else
        match pr
        case Leaf => p
        case Node(cc, cl, ck, cr) => Node(cc, Node(pc, pl, pk, cl), ck, cr)
  }

  /** rotate(child, parent): throws IllegalArgument unless `child.up ==
      parent`; otherwise the child takes the parent's slot in the
      grandparent (or becomes the root) and the parent becomes its child. */
  function Rotate(c: Collection, child: Address, parent: Address): Result<Collection> {
    if !ChildOf(c.root, child, parent) then Fail(IllegalArgument)
    else Ok(Collection(ReplaceAt(c.root, parent,
                                 RotateLocal(Subtree(c.root, parent), child[|parent|])),
                       c.size))
  }

  lemma {:induction false} SubtreeConcat(t: Tree, a: Address, b: Address)
    ensures Subtree(t, a + b) == Subtree(Subtree(t, a), b)
    decreases |a|
  {
    if a != [] {
      assert (a + b)[0] == a[0] && (a + b)[1..] == a[1..] + b;
      SubtreeConcat(Child(t, a[0]), a[1..], b);
    } else {
      assert a + b == b;
    }
  }

  lemma {:induction false} SubtreeOfReplaced(t: Tree, a: Address, s: Tree, b: Address)
    requires IsNode(t, a)
    ensures Subtree(ReplaceAt(t, a, s), a + b) == Subtree(s, b)
    decreases |a|
  {
    if a != [] {
      assert (a + b)[0] == a[0] && (a + b)[1..] == a[1..] + b;
      SubtreeOfReplaced(Child(t, a[0]), a[1..], s, b);
    } else {
      assert a + b == b;
    }
  }

  lemma RotateLocalInOrder(p: Tree, d: Dir)
    ensures InOrder(RotateLocal(p, d)) == InOrder(p)
    ensures Size(RotateLocal(p, d)) == Size(p)
  {
  }

  lemma {:induction false} ReplaceAtSize(t: Tree, a: Address, s: Tree)
    requires InOrder(s) == InOrder(Subtree(t, a))
    ensures Size(ReplaceAt(t, a, s)) == Size(t)
  {
    ReplaceAtInOrder(t, a, s);
    InOrderCountsNodes(t);
    InOrderCountsNodes(ReplaceAt(t, a, s));
  }

  /** rotate throws exactly when the references are not parent and child;
      otherwise it keeps the in-order sequence and the node count. */
  lemma RotateKeepsKeys(c: Collection, child: Address, parent: Address)
    ensures Rotate(c, child, parent).Fail? <==> !ChildOf(c.root, child, parent)
    ensures Rotate(c, child, parent).Fail? ==> Rotate(c, child, parent).error == IllegalArgument
    ensures Rotate(c, child, parent).Ok? ==>
      var r := Rotate(c, child, parent).value;
      && InOrder(r.root) == InOrder(c.root)
      && Size(r.root) == Size(c.root)
      && r.size == c.size
  {
    if ChildOf(c.root, child, parent) {
      var p := Subtree(c.root, parent);
      RotateLocalInOrder(p, child[|parent|]);
      ReplaceAtInOrder(c.root, parent, RotateLocal(p, child[|parent|]));
      ReplaceAtSize(c.root, parent, RotateLocal(p, child[|parent|]));
    }
  }

  lemma ChildOfParent(t: Tree, child: Address, parent: Address)
    requires ChildOf(t, child, parent)
    ensures child == parent + [child[|parent|]]
    ensures IsNode(t, parent)
    ensures Subtree(t, child) == Child(Subtree(t, parent), child[|parent|])
  {
    var d := child[|parent|];
    assert child == parent + [d];
    SubtreeConcat(t, parent, [d]);
  }

  lemma SubtreeShort(t: Tree, x: Dir, y: Dir)
    ensures Subtree(t, []) == t
    ensures Subtree(t, [x]) == Child(t, x)
    ensures Subtree(t, [x, y]) == Child(Child(t, x), y)
  {
    assert [x, y][1..] == [y];
    assert [y][1..] == [];
    assert [x][1..] == [];
    assert Subtree(t, [x, y]) == Subtree(Child(t, x), [y]);
    assert Subtree(Child(t, x), [y]) == Subtree(Child(Child(t, x), y), []);
  }

  /** The shape of one rotation of node `p` with its `d` child `c`: `c` on
      top, `p` below it on the other side `e`, `c`'s `e` subtree moved
      under `p`. */
  lemma RotateLocalShape(p: Tree, d: Dir)
    requires p.Node? && Child(p, d).Node?
    ensures RotateLocal(p, d).Node?
    ensures RotateLocal(p, d).key == Child(p, d).key
    ensures RotateLocal(p, d).color == Child(p, d).color
    ensures Child(RotateLocal(p, d), d) == Child(Child(p, d), d)
    ensures Child(RotateLocal(p, d), Opposite(d)).Node?
    ensures Child(RotateLocal(p, d), Opposite(d)).key == p.key
    ensures Child(RotateLocal(p, d), Opposite(d)).color == p.color
    ensures Child(Child(RotateLocal(p, d), Opposite(d)), d) == Child(Child(p, d), Opposite(d))
    ensures Child(Child(RotateLocal(p, d), Opposite(d)), Opposite(d)) == Child(p, Opposite(d))
  {
  }

  /** After rotate(child, parent), with `d` the side the child hung on and
      `e` the other side: the child's node sits in the parent's former slot,
      the parent's node is its `e` child, the child's former `e` subtree
      has moved under the parent, and the two outer subtrees stay attached
      to their nodes. */
  lemma RotateRelinks(c: Collection, child: Address, parent: Address)
    requires ChildOf(c.root, child, parent)
    ensures IsNode(c.root, parent)
    ensures Rotate(c, child, parent).Ok?
    ensures
      var r := Rotate(c, child, parent).value.root;
      var d := child[|parent|];
      var e := Opposite(d);
      var ch := Subtree(c.root, child);
      var pa := Subtree(c.root, parent);
      && IsNode(r, parent) && Subtree(r, parent).key == ch.key && Subtree(r, parent).color == ch.color
      && IsNode(r, parent + [e]) && Subtree(r, parent + [e]).key == pa.key
      && Subtree(r, parent + [e]).color == pa.color
      && Subtree(r, parent + [e, d]) == Subtree(c.root, child + [e])
      && Subtree(r, parent + [d]) == Subtree(c.root, child + [d])
      && Subtree(r, parent + [e, e]) == Subtree(c.root, parent + [e])
  {
    var d := child[|parent|];
    var e := Opposite(d);
    ChildOfParent(c.root, child, parent);
    var pa := Subtree(c.root, parent);
    var ch := Subtree(c.root, child);
    var s := RotateLocal(pa, d);
    RotateLocalShape(pa, d);
    SubtreeShort(s, e, d);
    SubtreeShort(s, d, d);
    SubtreeShort(s, e, e);
    SubtreeShort(ch, e, e);
    SubtreeShort(ch, d, d);
    SubtreeShort(pa, e, e);
    SubtreeConcat(c.root, child, [e]);
    SubtreeConcat(c.root, child, [d]);
    SubtreeConcat(c.root, parent, [e]);
    SubtreeOfReplaced(c.root, parent, s, []);
    SubtreeOfReplaced(c.root, parent, s, [e]);
    SubtreeOfReplaced(c.root, parent, s, [d]);
    SubtreeOfReplaced(c.root, parent, s, [e, d]);
    SubtreeOfReplaced(c.root, parent, s, [e, e]);
    assert parent + [] == parent;
  }

  /** rotate(child, parent) leaves every node outside the parent's subtree
      where it was. */
  lemma RotateKeepsOthers(c: Collection, child: Address, parent: Address, b: Address)
    requires ChildOf(c.root, child, parent)
    requires !(parent <= b)
    ensures Rotate(c, child, parent).Ok?
    ensures IsNode(Rotate(c, child, parent).value.root, b) == IsNode(c.root, b)
    ensures !(b <= parent) ==> Subtree(Rotate(c, child, parent).value.root, b) == Subtree(c.root, b)
  {
    ChildOfParent(c.root, child, parent);
    ReplaceAtElsewhere(c.root, parent, RotateLocal(Subtree(c.root, parent), child[|parent|]), b);
  }

  // ---------------------------------------------------------------------
  // Lookup, size, emptiness, clear
  // ---------------------------------------------------------------------

  /** findNode: the node holding a key that compares equal, Leaf (null)
      when the walk falls off the tree. */
  function FindNode(t: Tree, k: int): Tree {
    match t
    case Leaf => Leaf
    case Node(_, l, key, r) =>
      if k == key then t
      else if k < key then FindNode(l, k)
      else FindNode(r, k)
  }

  /** contains: a null argument throws; otherwise whether findNode found a node. */
  function Contains(c: Collection, data: Option<int>): Result<bool> {
    match data
    case None => Fail(NullPointer)
    case Some(k) => Ok(FindNode(c.root, k).Node?)
  }

  /** In an ordered tree (duplicates allowed or not) findNode finds a node
      exactly when an equal key is stored, and that node holds the key. */
  lemma {:induction false} FindNodeFinds(t: Tree, k: int)
    requires Ascending(InOrder(t))
    ensures FindNode(t, k).Node? <==> k in InOrder(t)
    ensures FindNode(t, k).Node? ==> FindNode(t, k).key == k
  {
    match t
    case Leaf =>
    case Node(c, l, key, r) =>
      AscendingNode(c, l, key, r);
      if k < key {
        FindNodeFinds(l, k);
      } else if k > key {
        FindNodeFinds(r, k);
      }
  }

  /** contains is true iff some stored key equals the argument, and throws
      on null. */
  lemma ContainsIffStored(c: Collection, k: int)
    requires Ascending(InOrder(c.root))
    ensures Contains(c, Some(k)) == Ok(k in InOrder(c.root))
    ensures Contains(c, None) == Fail(NullPointer)
  {
    FindNodeFinds(c.root, k);
  }

  function SizeOf(c: Collection): nat {
    c.size
  }

  /** isEmpty: `size() == 0`. */
  function IsEmpty(c: Collection): bool {
    SizeOf(c) == 0
  }

  /** clear: drop the root and reset the count. */
  function Clear(c: Collection): Collection {
    Collection(Leaf, 0)
  }

  /** When `size` agrees with the node count, isEmpty holds exactly when
      there is no root and no key is contained. */
  lemma IsEmptyIffNoKeys(c: Collection)
    requires SizeAgrees(c)
    ensures IsEmpty(c) <==> c.root == Leaf
    ensures IsEmpty(c) <==> InOrder(c.root) == []
  {
    InOrderCountsNodes(c.root);
  }

  /** After clear the tree is empty, its size agrees, and no key is contained. */
  lemma ClearEmpties(c: Collection, k: int)
    ensures SizeAgrees(Clear(c)) && IsEmpty(Clear(c))
    ensures Contains(Clear(c), Some(k)) == Ok(false)
  {
  }

  // ---------------------------------------------------------------------
  // Diagnostic traversals and their visit-count guard
  // ---------------------------------------------------------------------

  /** The keys still to be emitted for a traversal stack (top = last
      element): each stacked node's key, then its right subtree. */
  function StackKeys(stack: seq<Tree>): seq<int>
    decreases |stack|
  {
    if stack == [] then []
    else
      var top := stack[|stack| - 1];
      (if top.Node? then [top.key] + InOrder(top.right) else [])
      + StackKeys(stack[..|stack| - 1])
  }

  lemma StackKeysPush(stack: seq<Tree>, n: Tree)
    requires n.Node?
    ensures StackKeys(stack + [n]) == [n.key] + InOrder(n.right) + StackKeys(stack)
  {
    assert (stack + [n])[..|stack|] == stack;
  }

  /** Descending left from `current` moves it onto the stack without
      changing what is still to be emitted. */
  lemma PushLeft(out: seq<int>, current: Tree, stack: seq<Tree>)
    requires current.Node?
    ensures out + InOrder(current) + StackKeys(stack)
         == out + InOrder(current.left) + StackKeys(stack + [current])
  {
    StackKeysPush(stack, current);
    ConcatRegroup(out, InOrder(current.left), [current.key], InOrder(current.right), StackKeys(stack));
  }

  /** Popping the top node emits its key and resumes at its right child. */
  lemma PopTop(out: seq<int>, stack: seq<Tree>)
    requires stack != [] && stack[|stack| - 1].Node?
    ensures
      var top := stack[|stack| - 1];
      out + InOrder(Leaf) + StackKeys(stack)
        == (out + [top.key]) + InOrder(top.right) + StackKeys(stack[..|stack| - 1])
  {
    var top := stack[|stack| - 1];
    var rest := StackKeys(stack[..|stack| - 1]);
    assert StackKeys(stack) == [top.key] + InOrder(top.right) + rest;
    assert out + InOrder(Leaf) == out;
    ConcatShift(out, [top.key], InOrder(top.right), rest);
  }

  /** toInOrderString's loop: an explicit stack, a `current` pointer and a
      visit counter that throws once it exceeds `size`. */
  method InOrderTraversal(c: Collection) returns (r: Result<seq<int>>)
    ensures r.Ok? <==> Size(c.root) <= c.size
    ensures r.Ok? ==> r.value == InOrder(c.root)
    ensures r.Fail? ==> r.error == TraversalOverrun
  {
    var out: seq<int> := [];
    var nodesVisited := 0;
    InOrderCountsNodes(c.root);
    if c.root.Node? {
      var stack: seq<Tree> := [];
      var current := c.root;
      assert out + InOrder(current) + StackKeys(stack) == InOrder(c.root);
      while stack != [] || current.Node?
        invariant forall i :: 0 <= i < |stack| ==> stack[i].Node?
        invariant out + InOrder(current) + StackKeys(stack) == InOrder(c.root)
        invariant nodesVisited == |out| <= c.size
        decreases |InOrder(current)| + |StackKeys(stack)|, Size(current)
      {
        if current.Leaf? {
          PopTop(out, stack);
          var popped := stack[|stack| - 1];
          stack := stack[..|stack| - 1];
          nodesVisited := nodesVisited + 1;
          if nodesVisited > c.size {
            return Fail(TraversalOverrun);
          }
          out := out + [popped.key];
          current := popped.right;
        } else {
          PushLeft(out, current, stack);
          stack := stack + [current];
          current := current.left;
        }
      }
    }
    return Ok(out);
  }

  /** The non-null children of a node, left first (the order the
      level-order queue receives them). */
  function Kids(t: Tree): seq<Tree> {
    match t
    case Leaf => []
    case Node(_, l, _, r) =>
      (if l.Node? then [l] else []) + (if r.Node? then [r] else [])
  }

  function ForestSize(f: seq<Tree>): nat
    decreases |f|
  {
    if f == [] then 0 else Size(f[0]) + ForestSize(f[1..])
  }

  /** The keys of the nodes of a forest, left to right. */
  function Roots(f: seq<Tree>): seq<int>
    decreases |f|
  {
    if f == [] then []
    else (if f[0].Node? then [f[0].key] else []) + Roots(f[1..])
  }

  /** The next level down: all non-null children, left to right. */
  function Children(f: seq<Tree>): seq<Tree>
    decreases |f|
  {
    if f == [] then [] else Kids(f[0]) + Children(f[1..])
  }

  lemma {:induction false} ForestConcat(a: seq<Tree>, b: seq<Tree>)
    ensures ForestSize(a + b) == ForestSize(a) + ForestSize(b)
    ensures Roots(a + b) == Roots(a) + Roots(b)
    ensures Children(a + b) == Children(a) + Children(b)
    decreases |a|
  {
    if a != [] {
      var ab := a + b;
      assert ab[0] == a[0] && ab[1..] == a[1..] + b;
      ForestConcat(a[1..], b);
      var head := if a[0].Node? then [a[0].key] else [];
      assert Roots(ab) == head + (Roots(a[1..]) + Roots(b));
      assert Roots(a) == head + Roots(a[1..]);
      assert Children(ab) == Kids(a[0]) + (Children(a[1..]) + Children(b));
      assert Children(a) == Kids(a[0]) + Children(a[1..]);
    } else {
      assert a + b == b;
    }
  }

  lemma ForestSingle(t: Tree)
    ensures ForestSize([t]) == Size(t)
    ensures Roots([t]) == (if t.Node? then [t.key] else [])
    ensures Children([t]) == Kids(t)
  {
    assert [t][1..] == [];
  }

  lemma KidsSize(t: Tree)
    ensures t.Node? ==> ForestSize(Kids(t)) + 1 == Size(t)
    ensures t.Leaf? ==> ForestSize(Kids(t)) == 0
  {
    match t
    case Leaf =>
    case Node(_, l, _, r) =>
      var a := if l.Node? then [l] else [];
      var b := if r.Node? then [r] else [];
      ForestConcat(a, b);
      ForestSingle(l);
      ForestSingle(r);
  }

  lemma {:induction false} ChildrenShrink(f: seq<Tree>)
    ensures ForestSize(Children(f)) + |Roots(f)| == ForestSize(f)
    ensures ForestSize(f) > 0 ==> |Roots(f)| > 0
    decreases |f|
  {
    if f != [] {
      ChildrenShrink(f[1..]);
      ForestConcat(Kids(f[0]), Children(f[1..]));
      KidsSize(f[0]);
    }
  }

  /** Level order as a reference definition: the roots of a forest, then
      level order of the forest of their children. */
  function Levels(f: seq<Tree>): seq<int>
    decreases ForestSize(f)
  {
    if ForestSize(f) == 0 then []
    else
      ChildrenShrink(f);
      Roots(f) + Levels(Children(f))
  }

  function LevelOrder(t: Tree): seq<int> {
    Levels([t])
  }

  lemma {:induction false} LevelsCount(f: seq<Tree>)
    ensures |Levels(f)| == ForestSize(f)
    decreases ForestSize(f)
  {
    ChildrenShrink(f);
    if ForestSize(f) != 0 {
      LevelsCount(Children(f));
    }
  }

  /** What a level-order queue still has to emit when its first `m`
      entries are the rest of the current level and the others are the
      part of the next level queued so far. */
  ghost function QueuePending(q: seq<Tree>, m: nat): seq<int>
    requires m <= |q|
  {
    Roots(q[..m]) + Levels(q[m..] + Children(q[..m]))
  }

  lemma QueueRefill(q: seq<Tree>)
    requires q != [] && q[0].Node?
    ensures QueuePending(q, 0) == QueuePending(q, |q|)
  {
    assert q[0..] + Children(q[..0]) == q;
    assert q[|q|..] + Children(q[..|q|]) == Children(q);
    assert q[..|q|] == q;
    ForestConcat([q[0]], q[1..]);
    assert [q[0]] + q[1..] == q;
    ForestSingle(q[0]);
    KidsSize(q[0]);
  }

  lemma QueueSplit(q: seq<Tree>, m: nat)
    requires 0 < m <= |q|
    ensures q[..m] == [q[0]] + q[1..m]
    ensures (q[1..] + Kids(q[0]))[..m - 1] == q[1..m]
    ensures (q[1..] + Kids(q[0]))[m - 1..] == q[m..] + Kids(q[0])
  {
  }

  lemma QueueStep(q: seq<Tree>, m: nat)
    requires 0 < m <= |q| && q[0].Node?
    ensures QueuePending(q, m) == [q[0].key] + QueuePending(q[1..] + Kids(q[0]), m - 1)
  {
    var next := q[0];
    var A, B := q[1..m], q[m..];
    var q' := q[1..] + Kids(next);
    var K, CA := Kids(next), Children(A);
    assert q[..m] == [next] + A && q'[..m - 1] == A && q'[m - 1..] == B + K by {
      QueueSplit(q, m);
    }
    assert Roots(q[..m]) == [next.key] + Roots(A) && Children(q[..m]) == K + CA by {
      ForestConcat([next], A);
      ForestSingle(next);
    }
    assert B + (K + CA) == (B + K) + CA by {
      ConcatAssoc(B, K, CA);
    }
    var rest := Levels(B + (K + CA));
    assert QueuePending(q, m) == ([next.key] + Roots(A)) + rest;
    assert QueuePending(q', m - 1) == Roots(A) + rest;
  }

  lemma QueueStepSize(q: seq<Tree>)
    requires q != [] && q[0].Node?
    ensures ForestSize(q[1..] + Kids(q[0])) + 1 == ForestSize(q)
  {
    ForestConcat(q[1..], Kids(q[0]));
    KidsSize(q[0]);
  }

  lemma QueueStart(t: Tree)
    requires t.Node?
    ensures QueuePending([t], 0) == LevelOrder(t)
  {
    assert [t][0..] + Children([t][..0]) == [t];
    assert Roots([t][..0]) == [];
  }

  lemma QueueEnd(m: nat)
    requires m <= 0
    ensures QueuePending([], m) == []
  {
    assert ForestSize([]) == 0;
  }

  lemma KidsAreNodes(t: Tree)
    ensures forall i :: 0 <= i < |Kids(t)| ==> Kids(t)[i].Node?
  {
  }

  /** One dequeue of the level-order loop keeps its invariant. */
  lemma QueueAdvance(q: seq<Tree>, m: nat, out: seq<int>, target: seq<int>)
    requires q != [] && (forall i :: 0 <= i < |q| ==> q[i].Node?)
    requires 0 < m <= |q|
    requires out + QueuePending(q, m) == target
       || (m == |q| && out + QueuePending(q, 0) == target)
    ensures out + [q[0].key] + QueuePending(q[1..] + Kids(q[0]), m - 1) == target
    ensures forall i :: 0 <= i < |q[1..] + Kids(q[0])| ==> (q[1..] + Kids(q[0]))[i].Node?
    ensures ForestSize(q[1..] + Kids(q[0])) + 1 == ForestSize(q)
  {
    QueueRefill(q);
    QueueStep(q, m);
    QueueStepSize(q);
    KidsAreNodes(q[0]);
    var after := QueuePending(q[1..] + Kids(q[0]), m - 1);
    assert out + [q[0].key] + after == out + ([q[0].key] + after);
  }

  /** toLevelOrderString's loop: a FIFO queue of nodes and the same visit
      counter guard. The ghost `m` splits the queue into the rest of the
      current level and the part of the next level queued so far. */
  method LevelOrderTraversal(c: Collection) returns (r: Result<seq<int>>)
    ensures r.Ok? <==> Size(c.root) <= c.size
    ensures r.Ok? ==> r.value == LevelOrder(c.root)
    ensures r.Fail? ==> r.error == TraversalOverrun
  {
    var out: seq<int> := [];
    var nodesVisited := 0;
    LevelsCount([c.root]);
    ForestSingle(c.root);
    if c.root.Node? {
      var q: seq<Tree> := [c.root];
      ghost var m: nat := 0;
      QueueStart(c.root);
      while q != []
        invariant m <= |q|
        invariant forall i :: 0 <= i < |q| ==> q[i].Node?
        invariant out + QueuePending(q, m) == LevelOrder(c.root)
        invariant nodesVisited == |out| <= c.size
        invariant |out| + ForestSize(q) == Size(c.root)
        decreases ForestSize(q)
      {
        if m == 0 {
          m := |q|;
        }
        var next := q[0];
        var q' := q[1..] + Kids(next);
        QueueAdvance(q, m, out, LevelOrder(c.root));
        q := q';
        m := m - 1;
        nodesVisited := nodesVisited + 1;
        if nodesVisited > c.size {
          return Fail(TraversalOverrun);
        }
        out := out + [next.key];
      }
      QueueEnd(m);
    }
    return Ok(out);
  }

  // ---------------------------------------------------------------------
  // The rotation tests of BinarySearchTree.java
  // ---------------------------------------------------------------------

  /** A red node, as every node is linked. */
  function RedNode(l: Tree, k: int, r: Tree): Tree {
    Node(Red, l, k, r)
  }

  /** Inserting 7, 5, 3 builds a left-leaning chain. */
  lemma ChainLeft()
    ensures Insert(Empty(), Some(7)) == Ok((Collection(NewNode(7), 1), true))
    ensures Insert(Collection(NewNode(7), 1), Some(5))
         == Ok((Collection(RedNode(NewNode(5), 7, Leaf), 2), true))
    ensures Insert(Collection(RedNode(NewNode(5), 7, Leaf), 2), Some(3))
         == Ok((Collection(RedNode(RedNode(NewNode(3), 5, Leaf), 7, Leaf), 3), true))
  {
    var f7, f5 := Frame(Left, Red, 7, Leaf), Frame(Left, Red, 5, Leaf);
    assert [f7] + [] == [f7];
    assert Slot(NewNode(7), 5, RejectEqual) == Some([f7]);
    assert [f5] + [f7] == [f5, f7];
    assert Descend(NewNode(5), 3, RejectEqual, [f7]) == Some([f5, f7]);
    assert Slot(RedNode(NewNode(5), 7, Leaf), 3, RejectEqual) == Some([f5, f7]);
    assert [f5, f7][1..] == [f7];
  }

  /** test1: rotating the root's left child right gives in-order 3, 5, 7 and
      level order 5, 3, 7. */
  lemma RotateRightExample()
    ensures
      var c := Collection(RedNode(RedNode(NewNode(3), 5, Leaf), 7, Leaf), 3);
      && Rotate(c, [Left], []).Ok?
      && InOrder(Rotate(c, [Left], []).value.root) == [3, 5, 7]
      && LevelOrder(Rotate(c, [Left], []).value.root) == [5, 3, 7]
  {
    var t := RedNode(NewNode(3), 5, NewNode(7));
    assert Rotate(Collection(RedNode(RedNode(NewNode(3), 5, Leaf), 7, Leaf), 3), [Left], []).value.root == t;
    LevelOrderOfThree(3, 5, 7);
  }

  /** Inserting 3, 5, 7 builds a right-leaning chain. */
  lemma ChainRight()
    ensures Insert(Empty(), Some(3)) == Ok((Collection(NewNode(3), 1), true))
    ensures Insert(Collection(NewNode(3), 1), Some(5))
         == Ok((Collection(RedNode(Leaf, 3, NewNode(5)), 2), true))
    ensures Insert(Collection(RedNode(Leaf, 3, NewNode(5)), 2), Some(7))
         == Ok((Collection(RedNode(Leaf, 3, RedNode(Leaf, 5, NewNode(7))), 3), true))
  {
    var f3, f5 := Frame(Right, Red, 3, Leaf), Frame(Right, Red, 5, Leaf);
    assert [f3] + [] == [f3];
    assert Slot(NewNode(3), 5, RejectEqual) == Some([f3]);
    assert [f5] + [f3] == [f5, f3];
    assert Descend(NewNode(5), 7, RejectEqual, [f3]) == Some([f5, f3]);
    assert Slot(RedNode(Leaf, 3, NewNode(5)), 7, RejectEqual) == Some([f5, f3]);
    assert [f5, f3][1..] == [f3];
  }

  /** test2: rotating the root's right child left gives the same orders. */
  lemma RotateLeftExample()
    ensures
      var c := Collection(RedNode(Leaf, 3, RedNode(Leaf, 5, NewNode(7))), 3);
      && Rotate(c, [Right], []).Ok?
      && InOrder(Rotate(c, [Right], []).value.root) == [3, 5, 7]
      && LevelOrder(Rotate(c, [Right], []).value.root) == [5, 3, 7]
  {
    var t := RedNode(NewNode(3), 5, NewNode(7));
    assert Rotate(Collection(RedNode(Leaf, 3, RedNode(Leaf, 5, NewNode(7))), 3), [Right], []).value.root == t;
    LevelOrderOfThree(3, 5, 7);
  }

  /** Level order of a root with two leaf children. */
  lemma LevelOrderOfThree(a: int, b: int, c: int)
    ensures LevelOrder(RedNode(NewNode(a), b, NewNode(c))) == [b, a, c]
  {
    var t := RedNode(NewNode(a), b, NewNode(c));
    var kids := [NewNode(a), NewNode(c)];
    assert kids[1..] == [NewNode(c)] && [t][1..] == [] && [NewNode(c)][1..] == [];
    assert Kids(t) == kids;
    assert Children([t]) == kids;
    assert Roots([t]) == [b];
    assert Children([NewNode(c)]) == [];
    assert Children(kids) == [];
    assert Roots(kids) == [a, c];
    assert Size(NewNode(a)) == 1 && ForestSize(kids) > 0 && ForestSize([t]) > 0;
    assert Levels(kids) == [a, c] + Levels([]);
    assert Levels([t]) == [b] + Levels(kids);
  }

  /** Inserting 10, 5, 15 puts 5 and 15 under 10. */
  lemma TenFiveFifteen()
    ensures Insert(Empty(), Some(10)) == Ok((Collection(NewNode(10), 1), true))
    ensures Insert(Collection(NewNode(10), 1), Some(5))
         == Ok((Collection(RedNode(NewNode(5), 10, Leaf), 2), true))
    ensures Insert(Collection(RedNode(NewNode(5), 10, Leaf), 2), Some(15))
         == Ok((Collection(RedNode(NewNode(5), 10, NewNode(15)), 3), true))
  {
    var f10 := Frame(Left, Red, 10, Leaf);
    assert [f10] + [] == [f10];
    assert Slot(NewNode(10), 5, RejectEqual) == Some([f10]);
    var g10 := Frame(Right, Red, 10, NewNode(5));
    assert [g10] + [] == [g10];
    assert Slot(RedNode(NewNode(5), 10, Leaf), 15, RejectEqual) == Some([g10]);
  }

  /** test3: in the tree built from 10, 5, 15 the root is not a child of
      its right child, so rotate throws. */
  lemma RotateUnrelatedThrows()
    ensures
      var c1 := Insert(Empty(), Some(10));
      && c1.Ok? && Insert(c1.value.0, Some(5)).Ok?
      && var c2 := Insert(c1.value.0, Some(5)).value.0;
      && Insert(c2, Some(15)).Ok?
      && Rotate(Insert(c2, Some(15)).value.0, [], [Right]) == Fail(IllegalArgument)
  {
    TenFiveFifteen();
  }
}
