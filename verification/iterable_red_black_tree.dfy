/** IterableRedBlackTree.java: the red-black tree whose insertion walk sends
    keys equal to a node into its left subtree, and the stack-based in-order
    iterator that starts at the first key not below a chosen start point. */
module IterableRedBlackTree {
  import opened Trees
  import opened Outcomes
  import opened BinarySearchTree
  import opened RedBlackTree

  // ---------------------------------------------------------------------
  // The start point
  // ---------------------------------------------------------------------

  /** The comparator held in `iterationStartPoint`. */
  datatype StartPoint =
    | Default          // the initial anonymous comparator: compareTo answers -1
    | NullStart        // installed by setIterationStartPoint(null): answers 0
    | From(start: int) // a key given to setIterationStartPoint

  /** `startPoint.compareTo(data)`, with Integer.compareTo's -1, 0, 1. */
  function CompareTo(sp: StartPoint, data: int): int {
    match sp
    case Default => -1
    case NullStart => 0
    case From(k) => if k < data then -1 else if k == data then 0 else 1
  }

  /** buildStackHelper's test `startPoint.compareTo(node.data) > 0`: the node
      (and its left subtree) are passed over. Only a key start point ever
      passes anything over, and then exactly the keys below it. */
  function Skips(sp: StartPoint, data: int): (b: bool)
    ensures b <==> sp.From? && data < sp.start
  {
    CompareTo(sp, data) > 0
  }

  /** The keys of `s`, in order, that an iteration from `sp` is meant to
      produce: those the start point does not pass over. */
  function Kept(s: seq<int>, sp: StartPoint): (r: seq<int>)
    ensures |r| <= |s|
    decreases |s|
  {
    if s == [] then []
    else (if Skips(sp, s[0]) then [] else [s[0]]) + Kept(s[1..], sp)
  }

  lemma {:induction false} KeptConcat(a: seq<int>, b: seq<int>, sp: StartPoint)
    ensures Kept(a + b, sp) == Kept(a, sp) + Kept(b, sp)
    decreases |a|
  {
    if a != [] {
      var h := if Skips(sp, a[0]) then [] else [a[0]];
      assert (a + b)[0] == a[0] && (a + b)[1..] == a[1..] + b;
      assert Kept(a + b, sp) == h + Kept(a[1..] + b, sp);
      assert Kept(a, sp) == h + Kept(a[1..], sp);
      KeptConcat(a[1..], b, sp);
      ConcatAssoc(h, Kept(a[1..], sp), Kept(b, sp));
    } else {
      assert a + b == b;
    }
  }

  lemma KeptSingle(x: int, sp: StartPoint)
    ensures Kept([x], sp) == if Skips(sp, x) then [] else [x]
  {
    assert [x][1..] == [];
  }

  /** The kept keys of a subtree split around its root. */
  lemma KeptNode(c: Color, l: Tree, k: int, r: Tree, sp: StartPoint)
    ensures Kept(InOrder(Node(c, l, k, r)), sp)
         == Kept(InOrder(l), sp) + (if Skips(sp, k) then [] else [k]) + Kept(InOrder(r), sp)
  {
    KeptConcat(InOrder(l) + [k], InOrder(r), sp);
    KeptConcat(InOrder(l), [k], sp);
    KeptSingle(k, sp);
  }

  /** Both sentinel comparators keep every key: the default iteration and
      the one after setIterationStartPoint(null) visit the whole tree. */
  lemma {:induction false} KeptSentinel(s: seq<int>, sp: StartPoint)
    requires sp == Default || sp == NullStart
    ensures Kept(s, sp) == s
    decreases |s|
  {
    if s != [] {
      KeptSentinel(s[1..], sp);
    }
  }

  /** Keys all below a key start point are all passed over. */
  lemma {:induction false} KeptNone(s: seq<int>, sp: StartPoint)
    requires forall x :: x in s ==> Skips(sp, x)
    ensures Kept(s, sp) == []
    decreases |s|
  {
    if s != [] {
      assert s[0] in s;
      forall x | x in s[1..] ensures Skips(sp, x) {
        assert x in s;
      }
      KeptNone(s[1..], sp);
    }
  }

  /** The number of leading keys of `s` below `k`. */
  function LeadingBelow(s: seq<int>, k: int): (j: nat)
    ensures j <= |s|
    ensures forall i :: 0 <= i < j ==> s[i] < k
    ensures j < |s| ==> k <= s[j]
    decreases |s|
  {
    if s == [] || k <= s[0] then 0 else 1 + LeadingBelow(s[1..], k)
  }

  /** A leading key below the start point is passed over. */
  lemma KeptSkipsHead(s: seq<int>, k: int)
    requires s != [] && s[0] < k
    ensures Kept(s, From(k)) == Kept(s[1..], From(k))
    ensures LeadingBelow(s, k) == 1 + LeadingBelow(s[1..], k)
    ensures s[LeadingBelow(s, k)..] == s[1..][LeadingBelow(s[1..], k)..]
  {
  }

  lemma AscendingTail(s: seq<int>)
    requires s != [] && Ascending(s)
    ensures Ascending(s[1..])
    ensures forall i :: 0 <= i < |s| ==> s[0] <= s[i]
  {
  }

  /** On an ascending sequence a key start point keeps exactly the suffix
      from the first key not below it. */
  lemma {:induction false} KeptFromSuffix(s: seq<int>, k: int)
    requires Ascending(s)
    ensures Kept(s, From(k)) == s[LeadingBelow(s, k)..]
    decreases |s|
  {
    if s != [] {
      AscendingTail(s);
      if s[0] < k {
        KeptSkipsHead(s, k);
        KeptFromSuffix(s[1..], k);
      } else {
        KeptAll(s, From(k));
      }
    }
  }

  /** Past the leading keys below `k`, an ascending sequence stays at or
      above `k`. */
  lemma AscendingPastLeading(s: seq<int>, k: int)
    requires Ascending(s)
    ensures forall i :: LeadingBelow(s, k) <= i < |s| ==> k <= s[i]
  {
    var j := LeadingBelow(s, k);
    forall i | j <= i < |s| ensures k <= s[i] {
      assert s[j] <= s[i];
    }
  }

  lemma {:induction false} KeptAll(s: seq<int>, sp: StartPoint)
    requires forall i :: 0 <= i < |s| ==> !Skips(sp, s[i])
    ensures Kept(s, sp) == s
    decreases |s|
  {
    if s != [] {
      KeptAll(s[1..], sp);
    }
  }

  // ---------------------------------------------------------------------
  // The collection
  // ---------------------------------------------------------------------

  /** The object's fields: the red-black tree and `iterationStartPoint`. */
  datatype IterableTree = IterableTree(tree: Collection, startPoint: StartPoint)

  /** A new object: an empty tree and the default start point. */
  function NewIterable(): IterableTree {
    IterableTree(Empty(), Default)
  }

  /** setIterationStartPoint: a null argument (None) installs the comparator
      answering 0, any other key is used as given. The tree is untouched,
      and afterwards exactly the keys below the argument are passed over. */
  function SetIterationStartPoint(it: IterableTree, startPoint: Option<int>): (r: IterableTree)
    ensures r.tree == it.tree
    ensures forall x :: Skips(r.startPoint, x) <==> startPoint.Some? && x < startPoint.value
  {
    match startPoint
    case None => IterableTree(it.tree, NullStart)
    case Some(k) => IterableTree(it.tree, From(k))
  }

  /** The insertHelper override never meets a duplicate it rejects: the
      walk always reaches an empty slot. */
  lemma {:induction false} DescendAlwaysSlots(t: Tree, k: int, ps: Path)
    ensures Descend(t, k, EqualGoesLeft, ps).Some?
  {
    match t
    case Leaf =>
    case Node(c, l, key, r) =>
      if k <= key {
        DescendAlwaysSlots(l, k, [Frame(Left, c, key, r)] + ps);
      } else {
        DescendAlwaysSlots(r, k, [Frame(Right, c, key, l)] + ps);
      }
  }

  /** RedBlackTree.insert running the overriding insertHelper (an equal key
      goes left, the call always answers true) and a given fixup variant.
      A null key throws, every other key is linked, and the start point is
      kept. */
  function InsertVariant(it: IterableTree, data: Option<int>, v: Variant): (r: Result<(IterableTree, bool)>)
    ensures data.None? ==> r == Fail(NullPointer)
    ensures r.Ok? ==> r.value.1 && r.value.0.startPoint == it.startPoint
    ensures r.Ok? ==> r.value.0.tree.size == it.tree.size + 1
  {
    match InsertWith(it.tree, data, EqualGoesLeft, v)
    case Fail(e) => Fail(e)
    case Ok((c, b)) =>
      DescendAlwaysSlots(it.tree.root, data.value, []);
      Ok((IterableTree(c, it.startPoint), b))
  }

  /** The insert the subclass inherits: the fixup as written. */
  function Insert(it: IterableTree, data: Option<int>): Result<(IterableTree, bool)> {
    InsertVariant(it, data, AsWritten)
  }

  /** The same insert with the fixup's grandparent recolouring restored. */
  function InsertCorrected(it: IterableTree, data: Option<int>): Result<(IterableTree, bool)> {
    InsertVariant(it, data, Corrected)
  }

  /** The inherited insert keeps order, size bookkeeping, a black root and
      the red-red property, and the new key joins the in-order keys at
      some position: duplicates are kept side by side. */
  lemma InsertKeepsRedRed(it: IterableTree, k: int)
    requires IsRedRed(it.tree, EqualGoesLeft)
    ensures Insert(it, Some(k)).Ok?
    ensures
      var t := Insert(it, Some(k)).value.0.tree;
      var s := InOrder(it.tree.root);
      && IsRedRed(t, EqualGoesLeft)
      && exists i :: 0 <= i <= |s| && InOrder(t.root) == s[..i] + [k] + s[i..]
  {
    InsertWithKeeps(it.tree, k, EqualGoesLeft, AsWritten);
  }

  /** With the corrected fixup a valid tree also stays balanced. */
  lemma InsertCorrectedKeepsRedBlack(it: IterableTree, k: int)
    requires IsRedBlack(it.tree, EqualGoesLeft)
    ensures InsertCorrected(it, Some(k)).Ok?
    ensures
      var t := InsertCorrected(it, Some(k)).value.0.tree;
      var s := InOrder(it.tree.root);
      && IsRedBlack(t, EqualGoesLeft)
      && exists i :: 0 <= i <= |s| && InOrder(t.root) == s[..i] + [k] + s[i..]
  {
    InsertWithKeeps(it.tree, k, EqualGoesLeft, Corrected);
  }

  // ---------------------------------------------------------------------
  // The iterator
  // ---------------------------------------------------------------------

  /** RBTIterator: the node stack (top at the end) and the start point it
      was made with. */
  datatype RBTIterator = RBTIterator(stack: seq<Tree>, startPoint: StartPoint)

  predicate AllNodes(stack: seq<Tree>) {
    forall i :: 0 <= i < |stack| ==> stack[i].Node?
  }

  /** buildStackHelper: walk down from `t`, going right past nodes the
      start point passes over and pushing the others before going left.
      It only ever pushes nodes on top of what is there. */
  function BuildStack(t: Tree, sp: StartPoint, stack: seq<Tree>): (r: seq<Tree>)
    ensures |stack| <= |r| && r[..|stack|] == stack
    ensures AllNodes(stack) ==> AllNodes(r)
  {
    match t
    case Leaf => stack
    case Node(_, l, k, rt) =>
      if Skips(sp, k) then BuildStack(rt, sp, stack)
      else BuildStack(l, sp, stack + [t])
  }

  /** A bound on the work left in a stack: each node still owes itself and
      its right subtree. */
  function Weight(stack: seq<Tree>): nat
    decreases |stack|
  {
    if stack == [] then 0
    else Weight(stack[..|stack| - 1]) + 1 + Size(Child(stack[|stack| - 1], Right))
  }

  lemma WeightPush(stack: seq<Tree>, n: Tree)
    ensures Weight(stack + [n]) == Weight(stack) + 1 + Size(Child(n, Right))
  {
    assert (stack + [n])[..|stack|] == stack;
  }

  lemma {:induction false} BuildStackWeight(t: Tree, sp: StartPoint, stack: seq<Tree>)
    ensures Weight(BuildStack(t, sp, stack)) <= Size(t) + Weight(stack)
  {
    match t
    case Leaf =>
    case Node(_, l, k, r) =>
      if Skips(sp, k) {
        BuildStackWeight(r, sp, stack);
      } else {
        BuildStackWeight(l, sp, stack + [t]);
        WeightPush(stack, t);
      }
  }

  /** iterator(): a fresh iterator over the current root. */
  function Iterator(it: IterableTree): RBTIterator {
    RBTIterator(BuildStack(it.tree.root, it.startPoint, []), it.startPoint)
  }

  function HasNext(i: RBTIterator): bool {
    i.stack != []
  }

  /** next(): an empty stack throws NoSuchElementException; otherwise the
      top node is popped, the stack is rebuilt from its right child, and
      its key is returned. A null on top would throw at `nextNode.down`. */
  function Next(i: RBTIterator): (r: Result<(RBTIterator, int)>)
    ensures !HasNext(i) ==> r == Fail(NoSuchElement)
    ensures HasNext(i) && AllNodes(i.stack) ==> r.Ok? && AllNodes(r.value.0.stack)
    ensures r.Ok? ==> r.value.0.startPoint == i.startPoint
    ensures r.Ok? ==> Weight(r.value.0.stack) < Weight(i.stack)
  {
    if !HasNext(i) then Fail(NoSuchElement)
    else
      var top := i.stack[|i.stack| - 1];
      var rest := i.stack[..|i.stack| - 1];
      match top
      case Leaf => Fail(NullPointer)
      case Node(_, _, k, right) =>
        BuildStackWeight(right, i.startPoint, rest);
        var stack := if right.Node? then BuildStack(right, i.startPoint, rest) else rest;
        Ok((RBTIterator(stack, i.startPoint), k))
  }

  /** The keys a hasNext()/next() loop receives until it stops. */
  function Drain(i: RBTIterator): (out: seq<int>)
    ensures |out| <= Weight(i.stack)
    decreases Weight(i.stack)
  {
    match Next(i)
    case Fail(_) => []
    case Ok((i', x)) => [x] + Drain(i')
  }

  // ---------------------------------------------------------------------
  // Iteration order
  // ---------------------------------------------------------------------

  /** What a stack still owes: from the top down, each node's key followed
      by the kept keys of its right subtree. */
  function Pending(stack: seq<Tree>, sp: StartPoint): seq<int>
    decreases |stack|
  {
    if stack == [] then []
    else
      var top := stack[|stack| - 1];
      (if top.Node? then [top.key] + Kept(InOrder(top.right), sp) else [])
      + Pending(stack[..|stack| - 1], sp)
  }

  lemma PendingPush(stack: seq<Tree>, n: Tree, sp: StartPoint)
    requires n.Node?
    ensures Pending(stack + [n], sp) == [n.key] + Kept(InOrder(n.right), sp) + Pending(stack, sp)
  {
    assert (stack + [n])[..|stack|] == stack;
  }

  /** Every stacked node roots an ascending subtree. */
  predicate WellFormed(stack: seq<Tree>) {
    forall i :: 0 <= i < |stack| ==> stack[i].Node? && Ascending(InOrder(stack[i]))
  }

  /** Building the stack from an ascending subtree adds exactly its kept
      keys in front of what was pending. */
  lemma {:induction false} BuildStackPending(t: Tree, sp: StartPoint, stack: seq<Tree>)
    requires Ascending(InOrder(t)) && WellFormed(stack)
    ensures Pending(BuildStack(t, sp, stack), sp) == Kept(InOrder(t), sp) + Pending(stack, sp)
    ensures WellFormed(BuildStack(t, sp, stack))
  {
    match t
    case Leaf =>
    case Node(c, l, k, r) =>
      AscendingNode(c, l, k, r);
      KeptNode(c, l, k, r, sp);
      if Skips(sp, k) {
        KeptNone(InOrder(l), sp);
        assert Kept(InOrder(t), sp) == Kept(InOrder(r), sp);
        BuildStackPending(r, sp, stack);
      } else {
        assert Kept(InOrder(t), sp) == Kept(InOrder(l), sp) + [k] + Kept(InOrder(r), sp);
        var pushed := stack + [t];
        assert WellFormed(pushed) by {
          forall i | 0 <= i < |pushed|
            ensures pushed[i].Node? && Ascending(InOrder(pushed[i]))
          {
            if i < |stack| { assert pushed[i] == stack[i]; }
          }
        }
        PendingPush(stack, t, sp);
        BuildStackPending(l, sp, pushed);
        assert BuildStack(t, sp, stack) == BuildStack(l, sp, pushed);
        ConcatShift(Kept(InOrder(l), sp), [k], Kept(InOrder(r), sp), Pending(stack, sp));
      }
  }

  /** Popping the top of a well-formed stack leaves a well-formed stack. */
  lemma PopWellFormed(stack: seq<Tree>)
    requires stack != [] && WellFormed(stack)
    ensures WellFormed(stack[..|stack| - 1])
    ensures stack == stack[..|stack| - 1] + [stack[|stack| - 1]]
  {
    var rest := stack[..|stack| - 1];
    forall i | 0 <= i < |rest| ensures rest[i].Node? && Ascending(InOrder(rest[i])) {
      assert rest[i] == stack[i];
    }
  }

  /** One next() call hands out the first pending key. */
  lemma NextPending(i: RBTIterator)
    requires HasNext(i) && WellFormed(i.stack)
    ensures Next(i).Ok?
    ensures
      var (i', x) := Next(i).value;
      && WellFormed(i'.stack)
      && Pending(i.stack, i.startPoint) == [x] + Pending(i'.stack, i.startPoint)
  {
    var sp := i.startPoint;
    var top := i.stack[|i.stack| - 1];
    var rest := i.stack[..|i.stack| - 1];
    PopWellFormed(i.stack);
    assert top.Node? && Ascending(InOrder(top));
    AscendingNode(top.color, top.left, top.key, top.right);
    var st := BuildStack(top.right, sp, rest);
    BuildStackPending(top.right, sp, rest);
    assert Next(i) == Ok((RBTIterator(st, sp), top.key));
    PendingPush(rest, top, sp);
    assert Pending(i.stack, sp) == [top.key] + Kept(InOrder(top.right), sp) + Pending(rest, sp);
    assert Pending(st, sp) == Kept(InOrder(top.right), sp) + Pending(rest, sp);
    ConcatAssoc([top.key], Kept(InOrder(top.right), sp), Pending(rest, sp));
  }

  lemma {:induction false} DrainPending(i: RBTIterator)
    requires WellFormed(i.stack)
    ensures Drain(i) == Pending(i.stack, i.startPoint)
    decreases Weight(i.stack)
  {
    if HasNext(i) {
      NextPending(i);
      DrainPending(Next(i).value.0);
    }
  }

  /** An iterator over an ordered tree hands out, in order, exactly the
      tree's keys that its start point does not pass over. */
  lemma IterationOrder(it: IterableTree)
    requires Ascending(InOrder(it.tree.root))
    ensures Drain(Iterator(it)) == Kept(InOrder(it.tree.root), it.startPoint)
  {
    BuildStackPending(it.tree.root, it.startPoint, []);
    DrainPending(Iterator(it));
  }

  /** The same, read through the start point: the default and the null
      start point visit every key; a key start point visits the suffix of
      the sorted keys from the first one not below it. */
  lemma IterationFromStartPoint(it: IterableTree)
    requires Ascending(InOrder(it.tree.root))
    ensures !it.startPoint.From? ==> Drain(Iterator(it)) == InOrder(it.tree.root)
    ensures it.startPoint.From? ==>
      var s := InOrder(it.tree.root);
      var j := LeadingBelow(s, it.startPoint.start);
      && Drain(Iterator(it)) == s[j..]
      && (forall i :: j <= i < |s| ==> it.startPoint.start <= s[i])
  {
    IterationOrder(it);
    if it.startPoint.From? {
      KeptFromSuffix(InOrder(it.tree.root), it.startPoint.start);
      AscendingPastLeading(InOrder(it.tree.root), it.startPoint.start);
    } else {
      KeptSentinel(InOrder(it.tree.root), it.startPoint);
    }
  }

  /** The tests' loop: call next() while hasNext() answers true. It always
      stops, afterwards next() throws NoSuchElementException, and over an
      ordered tree it has received exactly the kept keys in order. */
  method IterateAll(it: IterableTree) returns (out: seq<int>, last: RBTIterator)
    ensures !HasNext(last) && Next(last) == Fail(NoSuchElement)
    ensures Ascending(InOrder(it.tree.root)) ==> out == Kept(InOrder(it.tree.root), it.startPoint)
  {
    var i := Iterator(it);
    if Ascending(InOrder(it.tree.root)) {
      BuildStackPending(it.tree.root, it.startPoint, []);
      assert Pending([], it.startPoint) == [];
    }
    out, last := DrainLoop(i);
  }

  /** The loop itself, from any iterator: it receives what was pending. */
  method DrainLoop(start: RBTIterator) returns (out: seq<int>, last: RBTIterator)
    requires AllNodes(start.stack)
    ensures !HasNext(last) && Next(last) == Fail(NoSuchElement)
    ensures WellFormed(start.stack) ==> out == Pending(start.stack, start.startPoint)
  {
    var sp := start.startPoint;
    var whole := Pending(start.stack, sp);
    var i := start;
    out := [];
    while HasNext(i)
      invariant AllNodes(i.stack) && i.startPoint == sp
      invariant WellFormed(start.stack) ==> WellFormed(i.stack) && out + Pending(i.stack, sp) == whole
      decreases Weight(i.stack)
    {
      var r := Next(i);
      if WellFormed(start.stack) {
        DrainStep(i, out, whole);
      }
      out := out + [r.value.1];
      i := r.value.0;
    }
    last := i;
  }

  /** One turn of the tests' loop keeps "received, then pending" equal to
      the whole iteration. */
  lemma DrainStep(i: RBTIterator, out: seq<int>, whole: seq<int>)
    requires HasNext(i) && WellFormed(i.stack)
    requires out + Pending(i.stack, i.startPoint) == whole
    ensures Next(i).Ok? && WellFormed(Next(i).value.0.stack)
    ensures out + [Next(i).value.1] + Pending(Next(i).value.0.stack, i.startPoint) == whole
  {
    NextPending(i);
    ConcatAssoc(out, [Next(i).value.1], Pending(Next(i).value.0.stack, i.startPoint));
  }

  // ---------------------------------------------------------------------
  // The tests' scenarios
  // ---------------------------------------------------------------------

  /** Gluing a computed slot and fixup run into an insert of the override. */
  lemma IterableSteps(it: IterableTree, k: int, c: Collection)
    requires InsertWith(it.tree, Some(k), EqualGoesLeft, AsWritten) == Ok((c, true))
    ensures Insert(it, Some(k)) == Ok((IterableTree(c, it.startPoint), true))
  {
  }

  lemma FiveKeysSlotsInsert4()
    ensures InsertWith(Empty(), Some(4), EqualGoesLeft, AsWritten)
         == Ok((Collection(BL(4), 1), true))
  {
    var z0 := Zipper(RL(4), []);
    assert Fixup(z0, AsWritten) == Ok(RL(4));
    InsertSteps(Empty(), 4, EqualGoesLeft, AsWritten, [], RL(4));
  }

  lemma FiveKeysSlotsInsert2()
    ensures InsertWith(Collection(BL(4), 1), Some(2), EqualGoesLeft, AsWritten)
         == Ok((Collection(B(RL(2), 4, Leaf), 2), true))
  {
    assert Descend(BL(4), 2, EqualGoesLeft, [])
        == Descend(Leaf, 2, EqualGoesLeft, [Frame(Left, Black, 4, Leaf)] + []);
    assert [Frame(Left, Black, 4, Leaf)] + []
        == [Frame(Left, Black, 4, Leaf)];
    var z0 := Zipper(RL(2), [Frame(Left, Black, 4, Leaf)]);
    assert Fixup(z0, AsWritten) == Ok(B(RL(2), 4, Leaf));
    InsertSteps(Collection(BL(4), 1), 2, EqualGoesLeft, AsWritten, [Frame(Left, Black, 4, Leaf)], B(RL(2), 4, Leaf));
  }

  lemma FiveKeysSlotsInsert1()
    ensures InsertWith(Collection(B(RL(2), 4, Leaf), 2), Some(1), EqualGoesLeft, AsWritten)
         == Ok((Collection(B(RL(1), 2, RL(4)), 3), true))
  {
    assert Descend(B(RL(2), 4, Leaf), 1, EqualGoesLeft, [])
        == Descend(RL(2), 1, EqualGoesLeft, [Frame(Left, Black, 4, Leaf)] + []);
    assert Descend(RL(2), 1, EqualGoesLeft, [Frame(Left, Black, 4, Leaf)] + [])
        == Descend(Leaf, 1, EqualGoesLeft, [Frame(Left, Red, 2, Leaf)] + ([Frame(Left, Black, 4, Leaf)] + []));
    assert [Frame(Left, Red, 2, Leaf)] + ([Frame(Left, Black, 4, Leaf)] + [])
        == [Frame(Left, Red, 2, Leaf), Frame(Left, Black, 4, Leaf)];
    var z0 := Zipper(RL(1), [Frame(Left, Red, 2, Leaf), Frame(Left, Black, 4, Leaf)]);
    var z1 := Zipper(B(RL(1), 2, RL(4)), []);
    assert Step(z0, AsWritten) == z1;
    assert Fixup(z0, AsWritten) == Fixup(z1, AsWritten);
    assert Fixup(z1, AsWritten) == Ok(B(RL(1), 2, RL(4)));
    InsertSteps(Collection(B(RL(2), 4, Leaf), 2), 1, EqualGoesLeft, AsWritten, [Frame(Left, Red, 2, Leaf), Frame(Left, Black, 4, Leaf)], B(RL(1), 2, RL(4)));
  }

  lemma FiveKeysSlotsInsert5()
    ensures InsertWith(Collection(B(RL(1), 2, RL(4)), 3), Some(5), EqualGoesLeft, AsWritten)
         == Ok((Collection(B(BL(1), 2, B(Leaf, 4, RL(5))), 4), true))
  {
    assert Descend(B(RL(1), 2, RL(4)), 5, EqualGoesLeft, [])
        == Descend(RL(4), 5, EqualGoesLeft, [Frame(Right, Black, 2, RL(1))] + []);
    assert Descend(RL(4), 5, EqualGoesLeft, [Frame(Right, Black, 2, RL(1))] + [])
        == Descend(Leaf, 5, EqualGoesLeft, [Frame(Right, Red, 4, Leaf)] + ([Frame(Right, Black, 2, RL(1))] + []));
    assert [Frame(Right, Red, 4, Leaf)] + ([Frame(Right, Black, 2, RL(1))] + [])
        == [Frame(Right, Red, 4, Leaf), Frame(Right, Black, 2, RL(1))];
    var z0 := Zipper(RL(5), [Frame(Right, Red, 4, Leaf), Frame(Right, Black, 2, RL(1))]);
    var z1 := Zipper(R(BL(1), 2, B(Leaf, 4, RL(5))), []);
    assert Step(z0, AsWritten) == z1;
    assert Fixup(z0, AsWritten) == Fixup(z1, AsWritten);
    assert Fixup(z1, AsWritten) == Ok(R(BL(1), 2, B(Leaf, 4, RL(5))));
    InsertSteps(Collection(B(RL(1), 2, RL(4)), 3), 5, EqualGoesLeft, AsWritten, [Frame(Right, Red, 4, Leaf), Frame(Right, Black, 2, RL(1))], R(BL(1), 2, B(Leaf, 4, RL(5))));
  }

  lemma FiveKeysSlotsInsert3()
    ensures InsertWith(Collection(B(BL(1), 2, B(Leaf, 4, RL(5))), 4), Some(3), EqualGoesLeft, AsWritten)
         == Ok((Collection(B(BL(1), 2, B(RL(3), 4, RL(5))), 5), true))
  {
    assert Descend(B(BL(1), 2, B(Leaf, 4, RL(5))), 3, EqualGoesLeft, [])
        == Descend(B(Leaf, 4, RL(5)), 3, EqualGoesLeft, [Frame(Right, Black, 2, BL(1))] + []);
    assert Descend(B(Leaf, 4, RL(5)), 3, EqualGoesLeft, [Frame(Right, Black, 2, BL(1))] + [])
        == Descend(Leaf, 3, EqualGoesLeft, [Frame(Left, Black, 4, RL(5))] + ([Frame(Right, Black, 2, BL(1))] + []));
    assert [Frame(Left, Black, 4, RL(5))] + ([Frame(Right, Black, 2, BL(1))] + [])
        == [Frame(Left, Black, 4, RL(5)), Frame(Right, Black, 2, BL(1))];
    var z0 := Zipper(RL(3), [Frame(Left, Black, 4, RL(5)), Frame(Right, Black, 2, BL(1))]);
    assert Fixup(z0, AsWritten) == Ok(B(BL(1), 2, B(RL(3), 4, RL(5))));
    InsertSteps(Collection(B(BL(1), 2, B(Leaf, 4, RL(5))), 4), 3, EqualGoesLeft, AsWritten, [Frame(Left, Black, 4, RL(5)), Frame(Right, Black, 2, BL(1))], B(BL(1), 2, B(RL(3), 4, RL(5))));
  }

  /** The fixup runs of inserting 4, 2, 1, 5, 3 with equal keys going left. */
  lemma FiveKeysSlots()
    ensures InsertWith(Empty(), Some(4), EqualGoesLeft, AsWritten)
         == Ok((Collection(BL(4), 1), true))
    ensures InsertWith(Collection(BL(4), 1), Some(2), EqualGoesLeft, AsWritten)
         == Ok((Collection(B(RL(2), 4, Leaf), 2), true))
    ensures InsertWith(Collection(B(RL(2), 4, Leaf), 2), Some(1), EqualGoesLeft, AsWritten)
         == Ok((Collection(B(RL(1), 2, RL(4)), 3), true))
    ensures InsertWith(Collection(B(RL(1), 2, RL(4)), 3), Some(5), EqualGoesLeft, AsWritten)
         == Ok((Collection(B(BL(1), 2, B(Leaf, 4, RL(5))), 4), true))
    ensures InsertWith(Collection(B(BL(1), 2, B(Leaf, 4, RL(5))), 4), Some(3), EqualGoesLeft, AsWritten)
         == Ok((Collection(B(BL(1), 2, B(RL(3), 4, RL(5))), 5), true))
  {
    FiveKeysSlotsInsert4();
    FiveKeysSlotsInsert2();
    FiveKeysSlotsInsert1();
    FiveKeysSlotsInsert5();
    FiveKeysSlotsInsert3();
  }

  /** testIntegerIteration's tree: 4, 2, 1, 5, 3 inserted into a new object. */
  lemma FiveKeysBuilt()
    ensures Insert(NewIterable(), Some(4))
         == Ok((IterableTree(Collection(BL(4), 1), Default), true))
    ensures Insert(IterableTree(Collection(BL(4), 1), Default), Some(2))
         == Ok((IterableTree(Collection(B(RL(2), 4, Leaf), 2), Default), true))
    ensures Insert(IterableTree(Collection(B(RL(2), 4, Leaf), 2), Default), Some(1))
         == Ok((IterableTree(Collection(B(RL(1), 2, RL(4)), 3), Default), true))
    ensures Insert(IterableTree(Collection(B(RL(1), 2, RL(4)), 3), Default), Some(5))
         == Ok((IterableTree(Collection(B(BL(1), 2, B(Leaf, 4, RL(5))), 4), Default), true))
    ensures Insert(IterableTree(Collection(B(BL(1), 2, B(Leaf, 4, RL(5))), 4), Default), Some(3))
         == Ok((IterableTree(Collection(B(BL(1), 2, B(RL(3), 4, RL(5))), 5), Default), true))
  {
    FiveKeysSlots();
    IterableSteps(NewIterable(), 4, Collection(BL(4), 1));
    IterableSteps(IterableTree(Collection(BL(4), 1), Default), 2, Collection(B(RL(2), 4, Leaf), 2));
    IterableSteps(IterableTree(Collection(B(RL(2), 4, Leaf), 2), Default), 1, Collection(B(RL(1), 2, RL(4)), 3));
    IterableSteps(IterableTree(Collection(B(RL(1), 2, RL(4)), 3), Default), 5, Collection(B(BL(1), 2, B(Leaf, 4, RL(5))), 4));
    IterableSteps(IterableTree(Collection(B(BL(1), 2, B(Leaf, 4, RL(5))), 4), Default), 3, Collection(B(BL(1), 2, B(RL(3), 4, RL(5))), 5));
  }

  function FiveKeys(): IterableTree {
    IterableTree(Collection(B(BL(1), 2, B(RL(3), 4, RL(5))), 5), Default)
  }

  lemma FiveKeysInOrder()
    ensures InOrder(FiveKeys().tree.root) == [1, 2, 3, 4, 5]
    ensures Ascending(InOrder(FiveKeys().tree.root))
  {
    var s := [1, 2, 3, 4, 5];
    assert InOrder(FiveKeys().tree.root) == s;
    StrictlyAscendingByNeighbours(s);
  }

  /** testIntegerIteration: the default iterator hands out 1, 2, 3, 4, 5
      before next() fails. */
  lemma TestIntegerIteration()
    ensures Drain(Iterator(FiveKeys())) == [1, 2, 3, 4, 5]
  {
    FiveKeysInOrder();
    IterationOrder(FiveKeys());
    KeptSentinel([1, 2, 3, 4, 5], Default);
  }

  lemma KeptFromThree()
    ensures Kept([1, 2, 3, 4, 5], From(3)) == [3, 4, 5]
  {
    assert [1, 2, 3, 4, 5] == [1, 2] + [3, 4, 5];
    KeptConcat([1, 2], [3, 4, 5], From(3));
    KeptNone([1, 2], From(3));
    KeptAll([3, 4, 5], From(3));
  }

  /** testStartingPointIteration: from start point 3 the iterator hands out
      3, 4, 5. */
  lemma TestStartingPointIteration()
    ensures Drain(Iterator(SetIterationStartPoint(FiveKeys(), Some(3)))) == [3, 4, 5]
  {
    var it := SetIterationStartPoint(FiveKeys(), Some(3));
    FiveKeysInOrder();
    IterationOrder(it);
    KeptFromThree();
  }

  /** The inherited insert of 13 into SevenKeys(): no key equals 13, so
      the walk and the fixup run as in the duplicate-rejecting tree. */
  lemma InheritedInsertThirteenSlots()
    ensures InsertWith(Collection(B(R(BL(5), 10, B(RL(12), 15, RL(17))), 20, BL(30)), 7), Some(13), EqualGoesLeft, AsWritten)
         == Ok((Collection(B(R(BL(5), 10, B(Leaf, 12, RL(13))), 15, B(BL(17), 20, BL(30))), 8), true))
  {
    assert Descend(B(R(BL(5), 10, B(RL(12), 15, RL(17))), 20, BL(30)), 13, EqualGoesLeft, [])
        == Descend(R(BL(5), 10, B(RL(12), 15, RL(17))), 13, EqualGoesLeft, [Frame(Left, Black, 20, BL(30))] + []);
    assert Descend(R(BL(5), 10, B(RL(12), 15, RL(17))), 13, EqualGoesLeft, [Frame(Left, Black, 20, BL(30))] + [])
        == Descend(B(RL(12), 15, RL(17)), 13, EqualGoesLeft, [Frame(Right, Red, 10, BL(5))] + ([Frame(Left, Black, 20, BL(30))] + []));
    assert Descend(B(RL(12), 15, RL(17)), 13, EqualGoesLeft, [Frame(Right, Red, 10, BL(5))] + ([Frame(Left, Black, 20, BL(30))] + []))
        == Descend(RL(12), 13, EqualGoesLeft, [Frame(Left, Black, 15, RL(17))] + ([Frame(Right, Red, 10, BL(5))] + ([Frame(Left, Black, 20, BL(30))] + [])));
    assert Descend(RL(12), 13, EqualGoesLeft, [Frame(Left, Black, 15, RL(17))] + ([Frame(Right, Red, 10, BL(5))] + ([Frame(Left, Black, 20, BL(30))] + [])))
        == Descend(Leaf, 13, EqualGoesLeft, [Frame(Right, Red, 12, Leaf)] + ([Frame(Left, Black, 15, RL(17))] + ([Frame(Right, Red, 10, BL(5))] + ([Frame(Left, Black, 20, BL(30))] + []))));
    assert [Frame(Right, Red, 12, Leaf)] + ([Frame(Left, Black, 15, RL(17))] + ([Frame(Right, Red, 10, BL(5))] + ([Frame(Left, Black, 20, BL(30))] + [])))
        == [Frame(Right, Red, 12, Leaf), Frame(Left, Black, 15, RL(17)), Frame(Right, Red, 10, BL(5)), Frame(Left, Black, 20, BL(30))];
    var z0 := Zipper(RL(13), [Frame(Right, Red, 12, Leaf), Frame(Left, Black, 15, RL(17)), Frame(Right, Red, 10, BL(5)), Frame(Left, Black, 20, BL(30))]);
    var z1 := Zipper(R(B(Leaf, 12, RL(13)), 15, BL(17)), [Frame(Right, Red, 10, BL(5)), Frame(Left, Black, 20, BL(30))]);
    assert Step(z0, AsWritten) == z1;
    assert Fixup(z0, AsWritten) == Fixup(z1, AsWritten);
    var z2 := Zipper(B(R(BL(5), 10, B(Leaf, 12, RL(13))), 15, B(BL(17), 20, BL(30))), []);
    assert Step(z1, AsWritten) == z2;
    assert Fixup(z1, AsWritten) == Fixup(z2, AsWritten);
    assert Fixup(z2, AsWritten) == Ok(B(R(BL(5), 10, B(Leaf, 12, RL(13))), 15, B(BL(17), 20, BL(30))));
    InsertSteps(Collection(B(R(BL(5), 10, B(RL(12), 15, RL(17))), 20, BL(30)), 7), 13, EqualGoesLeft, AsWritten, [Frame(Right, Red, 12, Leaf), Frame(Left, Black, 15, RL(17)), Frame(Right, Red, 10, BL(5)), Frame(Left, Black, 20, BL(30))], B(R(BL(5), 10, B(Leaf, 12, RL(13))), 15, B(BL(17), 20, BL(30))));
  }

  /** The subclass inherits the unrecoloured grandparent: inserting 13 into
      a valid iterable tree holding SevenKeys() leaves paths through 10 one
      black node short of paths through 20. */
  lemma InheritedInsertBreaksBlackHeight()
    ensures IsRedBlack(SevenKeys(), EqualGoesLeft)
    ensures Insert(IterableTree(SevenKeys(), Default), Some(13)).Ok?
    ensures !Balanced(Insert(IterableTree(SevenKeys(), Default), Some(13)).value.0.tree.root)
  {
    SevenKeysIsRedBlack();
    InheritedInsertThirteenSlots();
    IterableSteps(IterableTree(SevenKeys(), Default), 13,
                  Collection(B(R(BL(5), 10, B(Leaf, 12, RL(13))), 15, B(BL(17), 20, BL(30))), 8));
  }
}
