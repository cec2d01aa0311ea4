/** The node structure shared by all three layers of the collection
    (BinarySearchTree.java `Node`, RedBlackTree.java `RBTNode`).

    A Java node holds its data, two child slots `down[0]`/`down[1]`, a parent
    back-reference `up` and, in the red-black layer, a colour bit. Here a tree
    is an immutable value; the parent reference is recovered in two ways:
    - a `Path` of `Frame`s from a node up to the root (a zipper), which is how
      the insertion walk and the fixup loop move through the tree;
    - an `Address` (the left/right turns from the root), which is how a node
      reference passed to `rotate` is named. */
module Trees {

  datatype Color = Red | Black

  /** `Leaf` is the null child reference. Every node carries a colour; the
      plain binary-search-tree layer never reads it. */
  datatype Tree = Leaf | Node(color: Color, left: Tree, key: int, right: Tree)

  /** `Left` is `down[0]`, `Right` is `down[1]`. */
  datatype Dir = Left | Right

  function Opposite(d: Dir): Dir {
    if d == Left then Right else Left
  }

  /** A freshly created node: no children, red (`isBlack` defaults to false). */
  function NewNode(k: int): Tree {
    Node(Red, Leaf, k, Leaf)
  }

  /** The number of nodes reachable from `t`. */
  function Size(t: Tree): nat {
    match t
    case Leaf => 0
    case Node(_, l, _, r) => Size(l) + 1 + Size(r)
  }

  /** The keys of `t` in in-order (left subtree, node, right subtree). */
  function InOrder(t: Tree): seq<int> {
    match t
    case Leaf => []
    case Node(_, l, k, r) => InOrder(l) + [k] + InOrder(r)
  }

  lemma InOrderCountsNodes(t: Tree)
    ensures |InOrder(t)| == Size(t)
  {
    match t
    case Leaf =>
    case Node(_, l, _, r) =>
      InOrderCountsNodes(l);
      InOrderCountsNodes(r);
  }

  /** The colour seen through a child slot: a null child counts as black. */
  function ColorOf(t: Tree): Color {
    if t.Leaf? then Black else t.color
  }

  /** Non-decreasing order: the ordering the duplicate-permissive tree keeps. */
  predicate Ascending(s: seq<int>) {
    forall i, j :: 0 <= i < j < |s| ==> s[i] <= s[j]
  }

  /** Strictly increasing order: the ordering the duplicate-rejecting tree keeps. */
  predicate StrictlyAscending(s: seq<int>) {
    forall i, j :: 0 <= i < j < |s| ==> s[i] < s[j]
  }

  /** A sequence whose neighbours increase is strictly increasing. */
  lemma {:induction false} StrictlyAscendingByNeighbours(s: seq<int>)
    requires forall i :: 0 < i < |s| ==> s[i - 1] < s[i]
    ensures StrictlyAscending(s)
    decreases |s|
  {
    if |s| > 1 {
      StrictlyAscendingByNeighbours(s[1..]);
      forall j | 0 < j < |s|
        ensures s[0] < s[j]
      {
        assert s[1..][j - 1] == s[j];
        if j > 1 {
          assert s[1..][0] < s[1..][j - 1];
        }
      }
      forall i, j | 0 < i < j < |s|
        ensures s[i] < s[j]
      {
        assert s[1..][i - 1] == s[i] && s[1..][j - 1] == s[j];
      }
    }
  }

  /** In-order sortedness of a node splits into sortedness of both subtrees
      and the key lying between them. */
  lemma AscendingNode(c: Color, l: Tree, k: int, r: Tree)
    requires Ascending(InOrder(Node(c, l, k, r)))
    ensures Ascending(InOrder(l)) && Ascending(InOrder(r))
    ensures forall x :: x in InOrder(l) ==> x <= k
    ensures forall x :: x in InOrder(r) ==> k <= x
  {
    var s := InOrder(Node(c, l, k, r));
    assert s == InOrder(l) + [k] + InOrder(r);
    assert s[|InOrder(l)|] == k;
    forall i, j | 0 <= i < j < |InOrder(r)|
      ensures InOrder(r)[i] <= InOrder(r)[j]
    {
      assert InOrder(r)[i] == s[|InOrder(l)| + 1 + i];
      assert InOrder(r)[j] == s[|InOrder(l)| + 1 + j];
    }
    forall i, j | 0 <= i < j < |InOrder(l)|
      ensures InOrder(l)[i] <= InOrder(l)[j]
    {
      assert InOrder(l)[i] == s[i] && InOrder(l)[j] == s[j];
    }
    forall x | x in InOrder(r)
      ensures k <= x
    {
      var i :| 0 <= i < |InOrder(r)| && InOrder(r)[i] == x;
      assert s[|InOrder(l)| + 1 + i] == x;
    }
    forall x | x in InOrder(l)
      ensures x <= k
    {
      var i :| 0 <= i < |InOrder(l)| && InOrder(l)[i] == x;
      assert s[i] == x;
    }
  }

  // ---------------------------------------------------------------------
  // Zipper: a node together with the path back up to the root
  // ---------------------------------------------------------------------

  /** One step of a path: the focus is the `dir` child of a node with the
      given colour and key whose other child is `sibling`. */
  datatype Frame = Frame(dir: Dir, color: Color, key: int, sibling: Tree)

  /** `ps[0]` is the parent of the focus, `ps[|ps| - 1]` is the root. */
  type Path = seq<Frame>

  /** The node of frame `f` with `t` hung in the focus slot. */
  function Attach(f: Frame, t: Tree): Tree {
    if f.dir == Left then Node(f.color, t, f.key, f.sibling)
    else Node(f.color, f.sibling, f.key, t)
  }

  /** The whole tree obtained by putting `t` back at the bottom of `ps`. */
  function Plug(t: Tree, ps: Path): Tree
    decreases |ps|
  {
    if ps == [] then t else Plug(Attach(ps[0], t), ps[1..])
  }

  /** The keys that come before the focus in in-order. */
  function KeysLeftOf(ps: Path): seq<int>
    decreases |ps|
  {
    if ps == [] then []
    else if ps[0].dir == Right then KeysLeftOf(ps[1..]) + InOrder(ps[0].sibling) + [ps[0].key]
    else KeysLeftOf(ps[1..])
  }

  /** The keys that come after the focus in in-order. */
  function KeysRightOf(ps: Path): seq<int>
    decreases |ps|
  {
    if ps == [] then []
    else if ps[0].dir == Left then [ps[0].key] + InOrder(ps[0].sibling) + KeysRightOf(ps[1..])
    else KeysRightOf(ps[1..])
  }

  /** The in-order sequence of a plugged tree is the focus's in-order
      sequence with the path's keys on either side. */
  lemma {:induction false} PlugInOrder(t: Tree, ps: Path)
    ensures InOrder(Plug(t, ps)) == KeysLeftOf(ps) + InOrder(t) + KeysRightOf(ps)
    decreases |ps|
  {
    if ps != [] {
      PlugInOrder(Attach(ps[0], t), ps[1..]);
      FrameInOrder(t, ps);
    }
  }

  lemma ConcatRegroup<T>(a: seq<T>, b: seq<T>, c: seq<T>, d: seq<T>, e: seq<T>)
    ensures a + (b + c + d) + e == a + b + (c + d + e)
    ensures a + (b + c + d) + e == (a + b + c) + d + e
  {
  }

  lemma ConcatAssoc<T>(a: seq<T>, b: seq<T>, c: seq<T>)
    ensures a + b + c == a + (b + c)
  {
  }

  lemma ConcatShift<T>(a: seq<T>, b: seq<T>, c: seq<T>, d: seq<T>)
    ensures a + (b + c + d) == (a + b) + c + d
  {
  }

  /** One frame of a path moves its key and its sibling's keys from the
      path's side sequences into the attached node. */
  lemma FrameInOrder(t: Tree, ps: Path)
    requires ps != []
    ensures KeysLeftOf(ps[1..]) + InOrder(Attach(ps[0], t)) + KeysRightOf(ps[1..])
         == KeysLeftOf(ps) + InOrder(t) + KeysRightOf(ps)
  {
    var f := ps[0];
    var L, R := KeysLeftOf(ps[1..]), KeysRightOf(ps[1..]);
    var T, S := InOrder(t), InOrder(f.sibling);
    if f.dir == Left {
      assert InOrder(Attach(f, t)) == T + [f.key] + S;
      assert KeysLeftOf(ps) == L;
      assert KeysRightOf(ps) == [f.key] + S + R;
      ConcatRegroup(L, T, [f.key], S, R);
    } else {
      assert InOrder(Attach(f, t)) == S + [f.key] + T;
      assert KeysLeftOf(ps) == L + S + [f.key];
      assert KeysRightOf(ps) == R;
      ConcatRegroup(L, S, [f.key], T, R);
    }
  }

  /** Replacing the focus by a subtree with the same in-order sequence keeps
      the in-order sequence of the whole tree. */
  lemma PlugSameInOrder(x: Tree, y: Tree, ps: Path)
    requires InOrder(x) == InOrder(y)
    ensures InOrder(Plug(x, ps)) == InOrder(Plug(y, ps))
  {
    PlugInOrder(x, ps);
    PlugInOrder(y, ps);
  }

  // ---------------------------------------------------------------------
  // Addresses: how a node reference is named from the root
  // ---------------------------------------------------------------------

  /** The turns from the root down to a node. */
  type Address = seq<Dir>

  function Child(t: Tree, d: Dir): Tree {
    match t
    case Leaf => Leaf
    case Node(_, l, _, r) => if d == Left then l else r
  }

  /** The subtree at address `a`; `Leaf` when no node sits there. */
  function Subtree(t: Tree, a: Address): Tree
    decreases |a|
  {
    if a == [] then t else Subtree(Child(t, a[0]), a[1..])
  }

  /** `a` names a node of `t` (a non-null reference into the tree). */
  predicate IsNode(t: Tree, a: Address) {
    Subtree(t, a).Node?
  }

  function WithChild(t: Tree, d: Dir, s: Tree): Tree {
    match t
    case Leaf => Leaf
    case Node(c, l, k, r) => if d == Left then Node(c, s, k, r) else Node(c, l, k, s)
  }

  /** `t` with the subtree at address `a` replaced by `s`. */
  function ReplaceAt(t: Tree, a: Address, s: Tree): Tree
    decreases |a|
  {
    if a == [] then s
    else if t.Leaf? then Leaf
    else WithChild(t, a[0], ReplaceAt(Child(t, a[0]), a[1..], s))
  }

  /** The address of the focus of a zipper with path `ps`. */
  function AddressOf(ps: Path): Address
    decreases |ps|
  {
    if ps == [] then [] else AddressOf(ps[1..]) + [ps[0].dir]
  }

  lemma {:induction false} SubtreeAppend(t: Tree, a: Address, d: Dir)
    ensures Subtree(t, a + [d]) == Child(Subtree(t, a), d)
    decreases |a|
  {
    if a != [] {
      assert (a + [d])[1..] == a[1..] + [d];
      SubtreeAppend(Child(t, a[0]), a[1..], d);
    }
  }

  lemma {:induction false} ReplaceAppend(t: Tree, a: Address, d: Dir, s: Tree)
    requires IsNode(t, a)
    ensures ReplaceAt(t, a + [d], s) == ReplaceAt(t, a, WithChild(Subtree(t, a), d, s))
    decreases |a|
  {
    if a != [] {
      assert (a + [d])[1..] == a[1..] + [d];
      ReplaceAppend(Child(t, a[0]), a[1..], d, s);
    }
  }

  /** The focus of a zipper sits at the address its path spells out. */
  lemma {:induction false} PlugAddress(x: Tree, ps: Path)
    ensures Subtree(Plug(x, ps), AddressOf(ps)) == x
    decreases |ps|
  {
    if ps != [] {
      PlugAddress(Attach(ps[0], x), ps[1..]);
      SubtreeAppend(Plug(x, ps), AddressOf(ps[1..]), ps[0].dir);
    }
  }

  /** Replacing at the focus's address is plugging a different focus. */
  lemma {:induction false} ReplaceInPlug(x: Tree, y: Tree, ps: Path)
    ensures ReplaceAt(Plug(x, ps), AddressOf(ps), y) == Plug(y, ps)
    decreases |ps|
  {
    if ps != [] {
      var whole := Plug(x, ps);
      var up := AddressOf(ps[1..]);
      PlugAddress(Attach(ps[0], x), ps[1..]);
      ReplaceAppend(whole, up, ps[0].dir, y);
      assert WithChild(Attach(ps[0], x), ps[0].dir, y) == Attach(ps[0], y);
      ReplaceInPlug(Attach(ps[0], x), Attach(ps[0], y), ps[1..]);
    }
  }

  /** A replacement with the same in-order sequence keeps the in-order
      sequence of the whole tree. */
  lemma {:induction false} ReplaceAtInOrder(t: Tree, a: Address, s: Tree)
    requires InOrder(s) == InOrder(Subtree(t, a))
    ensures InOrder(ReplaceAt(t, a, s)) == InOrder(t)
    decreases |a|
  {
    if a != [] && t.Node? {
      ReplaceAtInOrder(Child(t, a[0]), a[1..], s);
    }
  }

  /** Outside the replaced subtree nothing changes: a node whose address is
      not below `a` keeps its colour and key, and a subtree on a branch
      disjoint from `a` is untouched. (`a <= b` is the prefix order.) */
  lemma {:induction false} ReplaceAtElsewhere(t: Tree, a: Address, s: Tree, b: Address)
    requires IsNode(t, a)
    requires !(a <= b)
    ensures IsNode(ReplaceAt(t, a, s), b) == IsNode(t, b)
    ensures IsNode(t, b) ==>
      Subtree(ReplaceAt(t, a, s), b).key == Subtree(t, b).key &&
      Subtree(ReplaceAt(t, a, s), b).color == Subtree(t, b).color
    ensures !(b <= a) ==> Subtree(ReplaceAt(t, a, s), b) == Subtree(t, b)
    decreases |a|
  {
    assert a != [];
    if b != [] && a[0] == b[0] {
      assert a == [a[0]] + a[1..] && b == [b[0]] + b[1..];
      assert a[1..] <= b[1..] ==> a <= b;
      assert b[1..] <= a[1..] ==> b <= a;
      ReplaceAtElsewhere(Child(t, a[0]), a[1..], s, b[1..]);
    }
  }
}
