/** RedBlackTree.java: the colour bit, the fixup loop run after every
    accepted insertion, and the insert override that blackens the root.

    The fixup walks the tree through parent references; here it moves a
    zipper (`Zipper`: a focus node plus the path to the root). One step of
    the `while` loop is `Step`; the loop is `Fixup`. */
module RedBlackTree {
  import opened Trees
  import opened Outcomes
  import opened BinarySearchTree

  // ---------------------------------------------------------------------
  // The red-black properties
  // ---------------------------------------------------------------------

  /** No red node has a red child. */
  predicate NoRedRed(t: Tree) {
    match t
    case Leaf => true
    case Node(c, l, _, r) =>
      && NoRedRed(l) && NoRedRed(r)
      && (c == Red ==> ColorOf(l) == Black && ColorOf(r) == Black)
  }

  /** The number of black nodes on the leftmost path below and including
      `t`; in a balanced tree every path counts the same. */
  function BH(t: Tree): nat {
    match t
    case Leaf => 0
    case Node(c, l, _, _) => BH(l) + (if c == Black then 1 else 0)
  }

  /** Every path from a node down to a null child passes the same number
      of black nodes. */
  predicate Balanced(t: Tree) {
    match t
    case Leaf => true
    case Node(_, l, _, r) => Balanced(l) && Balanced(r) && BH(l) == BH(r)
  }

  /** A well-formed red-black tree object: ordered for its duplicate
      policy, a `size` field that counts the nodes, a black root, no red
      node with a red child, and equal black heights. */
  predicate IsRedBlack(c: Collection, policy: DuplicatePolicy) {
    && Ordered(policy, InOrder(c.root))
    && SizeAgrees(c)
    && ColorOf(c.root) == Black
    && NoRedRed(c.root)
    && Balanced(c.root)
  }

  /** The same, without the black-height property. */
  predicate IsRedRed(c: Collection, policy: DuplicatePolicy) {
    && Ordered(policy, InOrder(c.root))
    && SizeAgrees(c)
    && ColorOf(c.root) == Black
    && NoRedRed(c.root)
  }

  /** `t` recoloured (a null child stays null). */
  function Paint(t: Tree, c: Color): Tree {
    match t
    case Leaf => Leaf
    case Node(_, l, k, r) => Node(c, l, k, r)
  }

  // ---------------------------------------------------------------------
  // The red-black properties of the part of a tree above a node
  // ---------------------------------------------------------------------

  /** No red-red edge among the path's nodes and their other subtrees; the
      edge between the focus and its parent is not constrained. */
  predicate PathNoRedRed(ps: Path)
    decreases |ps|
  {
    if ps == [] then true
    else
      && NoRedRed(ps[0].sibling)
      && (ps[0].color == Red ==>
            ColorOf(ps[0].sibling) == Black && (|ps| > 1 ==> ps[1].color == Black))
      && PathNoRedRed(ps[1..])
  }

  /** Each subtree hanging off the path is balanced and has the black
      height of the path's part below it, starting from `h` at the focus. */
  predicate PathBalanced(ps: Path, h: nat)
    decreases |ps|
  {
    if ps == [] then true
    else
      && Balanced(ps[0].sibling)
      && BH(ps[0].sibling) == h
      && PathBalanced(ps[1..], h + (if ps[0].color == Black then 1 else 0))
  }

  /** The root, reached through the path, is black. */
  predicate RootBlack(ps: Path) {
    ps != [] ==> ps[|ps| - 1].color == Black
  }

  /** The red property of a tree split at a node: the node's subtree, the
      path above it, and the one edge between them. */
  lemma {:induction false} PlugNoRedRed(t: Tree, ps: Path)
    ensures NoRedRed(Plug(t, ps)) <==>
      && NoRedRed(t)
      && PathNoRedRed(ps)
      && (ps != [] && ps[0].color == Red ==> ColorOf(t) == Black)
    decreases |ps|
  {
    if ps != [] {
      PlugNoRedRed(Attach(ps[0], t), ps[1..]);
    }
  }

  /** The black-height property of a tree split at a node. */
  lemma {:induction false} PlugBalanced(t: Tree, ps: Path)
    ensures Balanced(Plug(t, ps)) <==> Balanced(t) && PathBalanced(ps, BH(t))
    decreases |ps|
  {
    if ps != [] {
      var a := Attach(ps[0], t);
      PlugBalanced(a, ps[1..]);
      if Balanced(t) && BH(t) == BH(ps[0].sibling) {
        assert BH(a) == BH(t) + (if ps[0].color == Black then 1 else 0);
      }
    }
  }

  lemma {:induction false} PlugRoot(t: Tree, ps: Path)
    requires t.Node?
    ensures Plug(t, ps).Node?
    ensures ColorOf(Plug(t, ps)) == (if ps == [] then t.color else ps[|ps| - 1].color)
    decreases |ps|
  {
    if ps != [] {
      PlugRoot(Attach(ps[0], t), ps[1..]);
    }
  }

  // ---------------------------------------------------------------------
  // Moving through the tree
  // ---------------------------------------------------------------------

  /** A node reference: the focus subtree and the path up to the root. */
  datatype Zipper = Zipper(focus: Tree, path: Path)

  function Whole(z: Zipper): Tree {
    Plug(z.focus, z.path)
  }

  /** `n = n.getUp()`. */
  function Up(z: Zipper): (r: Zipper)
    requires z.path != []
    ensures Whole(r) == Whole(z) && |r.path| + 1 == |z.path|
  {
    Zipper(Attach(z.path[0], z.focus), z.path[1..])
  }

  /** `n = n.getDownLeft()` / `n.getDownRight()`. */
  function Down(z: Zipper, d: Dir): (r: Zipper)
    requires z.focus.Node?
    ensures Whole(r) == Whole(z) && |r.path| == |z.path| + 1
  {
    Zipper(Child(z.focus, d),
           [Frame(d, z.focus.color, z.focus.key, Child(z.focus, Opposite(d)))] + z.path)
  }

  /** `rotate(n, n.getUp())`: the focus node takes its parent's place and
      stays the focus. */
  function RotateUp(z: Zipper): (r: Zipper)
    requires z.path != []
    ensures InOrder(Whole(r)) == InOrder(Whole(z)) && |r.path| + 1 == |z.path|
    ensures z.focus.Node? ==> r.focus.Node?
  {
    var a := Attach(z.path[0], z.focus);
    RotateLocalInOrder(a, z.path[0].dir);
    PlugSameInOrder(RotateLocal(a, z.path[0].dir), a, z.path[1..]);
    Zipper(RotateLocal(a, z.path[0].dir), z.path[1..])
  }

  /** `n.isBlack = …`. */
  function SetColor(z: Zipper, c: Color): (r: Zipper)
    ensures InOrder(Whole(r)) == InOrder(Whole(z)) && r.path == z.path
    ensures r.focus.Node? == z.focus.Node?
  {
    PlugSameInOrder(Paint(z.focus, c), z.focus, z.path);
    z.(focus := Paint(z.focus, c))
  }

  /** `n.getDownLeft().isBlack = …` / `n.getDownRight().isBlack = …`. */
  function SetChildColor(z: Zipper, d: Dir, c: Color): (r: Zipper)
    ensures InOrder(Whole(r)) == InOrder(Whole(z)) && r.path == z.path
    ensures r.focus.Node? == z.focus.Node?
  {
    var t := WithChild(z.focus, d, Paint(Child(z.focus, d), c));
    PlugSameInOrder(t, z.focus, z.path);
    z.(focus := t)
  }

  /** The zipper rotation is the `rotate(child, parent)` of the plain tree
      applied to the focus's address and its parent's address. */
  lemma RotateUpIsRotate(z: Zipper, size: nat)
    requires z.path != [] && z.focus.Node?
    ensures ChildOf(Whole(z), AddressOf(z.path), AddressOf(z.path[1..]))
    ensures Rotate(Collection(Whole(z), size), AddressOf(z.path), AddressOf(z.path[1..]))
         == Ok(Collection(Whole(RotateUp(z)), size))
  {
    var ps := z.path;
    var a := Attach(ps[0], z.focus);
    var up := AddressOf(ps[1..]);
    assert AddressOf(ps) == up + [ps[0].dir];
    assert Whole(z) == Plug(a, ps[1..]);
    PlugAddress(z.focus, ps);
    PlugAddress(a, ps[1..]);
    ReplaceInPlug(a, RotateLocal(a, ps[0].dir), ps[1..]);
  }


  // ---------------------------------------------------------------------
  // The fixup loop
  // ---------------------------------------------------------------------

  /** Which version of the black-aunt, parent-left, inner-grandchild branch
      runs: the one in the source, which leaves the grandparent black, or
      the corrected one, which recolours it red as its mirror image does. */
  datatype Variant = AsWritten | Corrected

  /** The loop guard `n != root && !n.isBlack && !n.getUp().isBlack`. */
  predicate Violates(z: Zipper) {
    z.path != [] && ColorOf(z.focus) == Red && z.path[0].color == Red
  }

  /** A path of two frames or more plugs in two steps. */
  lemma PlugTwo(t: Tree, ps: Path)
    requires |ps| >= 2
    ensures Plug(t, ps) == Plug(Attach(ps[1], Attach(ps[0], t)), ps[2..])
  {
    assert ps[1..][0] == ps[1] && ps[1..][1..] == ps[2..];
  }

  /** The two rotations of an inner grandchild `n` under a red parent `p`
      and grandparent `g`: `n` ends on top with `p` and `g` as children. */
  lemma DoubleRotateShape(z: Zipper)
    requires |z.path| >= 2 && z.focus.Node? && z.path[0].dir != z.path[1].dir
    ensures
      var n, p, g := z.focus, z.path[0], z.path[1];
      RotateUp(RotateUp(z)) == Zipper(
        if g.dir == Left
        then Node(n.color, Node(p.color, p.sibling, p.key, n.left), n.key,
                  Node(g.color, n.right, g.key, g.sibling))
        else Node(n.color, Node(g.color, g.sibling, g.key, n.left), n.key,
                  Node(p.color, n.right, p.key, p.sibling)),
        z.path[2..])
  {
    assert z.path[1..][0] == z.path[1] && z.path[1..][1..] == z.path[2..];
  }

  /** The rotation of a parent `p` with an outer child `n` at the
      grandparent `g`: `p` ends on top with `n` and `g` as children. */
  lemma SingleRotateShape(z: Zipper)
    requires |z.path| >= 2 && z.focus.Node? && z.path[0].dir == z.path[1].dir
    ensures
      var n, p, g := z.focus, z.path[0], z.path[1];
      RotateUp(Up(z)) == Zipper(
        if g.dir == Left
        then Node(p.color, n, p.key, Node(g.color, p.sibling, g.key, g.sibling))
        else Node(p.color, Node(g.color, g.sibling, g.key, p.sibling), p.key, n),
        z.path[2..])
  {
    assert z.path[1..][0] == z.path[1] && z.path[1..][1..] == z.path[2..];
  }

  /** The parent is on the same side of the grandparent as the focus is of
      the parent: one rotation at the grandparent, the parent becomes the
      black top with the red grandparent below it. */
  function Outer(z: Zipper): (r: Zipper)
    requires |z.path| >= 2 && z.focus.Node? && z.path[0].dir == z.path[1].dir
    ensures InOrder(Whole(r)) == InOrder(Whole(z)) && |r.path| + 2 == |z.path| && r.focus.Node?
  {
    var q := RotateUp(Up(z));
    SetColor(SetChildColor(q, Opposite(z.path[0].dir), Red), Black)
  }

  /** The focus is an inner grandchild: two rotations bring it to the top;
      the moved grandparent is recoloured red unless `recolor` is false. */
  function Inner(z: Zipper, recolor: bool): (r: Zipper)
    requires |z.path| >= 2 && z.focus.Node? && z.path[0].dir != z.path[1].dir
    ensures InOrder(Whole(r)) == InOrder(Whole(z)) && |r.path| + 2 == |z.path| && r.focus.Node?
  {
    var q := RotateUp(RotateUp(z));
    if recolor then SetColor(SetChildColor(q, Opposite(z.path[1].dir), Red), Black)
    else SetColor(q, Black)
  }

  /** The red-aunt case: parent and aunt black, grandparent red, and the
      loop continues from the grandparent. */
  function RedAunt(z: Zipper): (r: Zipper)
    requires |z.path| >= 2 && z.focus.Node?
    ensures InOrder(Whole(r)) == InOrder(Whole(z)) && |r.path| + 2 == |z.path| && r.focus.Node?
  {
    var p, g := z.path[0], z.path[1];
    var ps := [p.(color := Black), g.(color := Red, sibling := Paint(g.sibling, Black))] + z.path[2..];
    var z1 := Zipper(z.focus, ps);
    PlugTwo(z.focus, z.path);
    PlugTwo(z.focus, ps);
    assert ps[2..] == z.path[2..];
    assert InOrder(Paint(g.sibling, Black)) == InOrder(g.sibling);
    PlugSameInOrder(Attach(ps[1], Attach(ps[0], z.focus)), Attach(g, Attach(p, z.focus)), z.path[2..]);
    Up(Up(z1))
  }

  /** The no-aunt case with the focus the right child of a left parent:
      the focus turns black and the grandparent red before the two
      rotations, and the loop continues from the grandparent, now the
      focus's right child. */
  function NoAuntInnerLeft(z: Zipper): (r: Zipper)
    requires |z.path| >= 2 && z.focus.Node? && z.path[0].dir == Right && z.path[1].dir == Left
    ensures InOrder(Whole(r)) == InOrder(Whole(z)) && |r.path| + 1 == |z.path| && r.focus.Node?
  {
    var g := z.path[1];
    var z0 := SetColor(z, Black);
    var ps := [z.path[0], g.(color := Red)] + z.path[2..];
    var z1 := Zipper(z0.focus, ps);
    PlugTwo(z0.focus, z0.path);
    PlugTwo(z0.focus, ps);
    assert ps[2..] == z.path[2..];
    PlugSameInOrder(Attach(ps[1], Attach(ps[0], z0.focus)), Attach(g, Attach(z.path[0], z0.focus)), z.path[2..]);
    var q := RotateUp(RotateUp(z1));
    DoubleRotateShape(z1);
    Down(q, Right)
  }

  /** One pass of the loop body; the grandparent exists. */
  function Step(z: Zipper, v: Variant): (r: Zipper)
    requires Violates(z) && |z.path| >= 2 && z.focus.Node?
    ensures InOrder(Whole(r)) == InOrder(Whole(z)) && |r.path| < |z.path| && r.focus.Node?
  {
    var p, g := z.path[0], z.path[1];
    var parentIsLeftChild := g.dir == Left;
    var aunt := g.sibling;
    if aunt.Node? && aunt.color == Red then RedAunt(z)
    else if aunt.Node? then
      if parentIsLeftChild then
        if p.dir == Left then Outer(z) else Inner(z, v == Corrected)
      else
        if p.dir == Right then Outer(z) else Inner(z, true)
    else
      if parentIsLeftChild then
        if p.dir == Right then NoAuntInnerLeft(z) else Outer(z)
      else
        if p.dir == Left then Inner(z, true) else Outer(z)
  }

  /** enforceRBTreePropertiesAfterInsert's `while` loop: the tree once the
      loop exits, or the NullPointerException `n.getUp().getUp()` raises
      when a red node's red parent is the root. */
  function Fixup(z: Zipper, v: Variant): (r: Result<Tree>)
    requires z.focus.Node?
    ensures r.Ok? ==> InOrder(r.value) == InOrder(Whole(z))
    decreases |z.path|
  {
    if !Violates(z) then Ok(Whole(z))
    else if |z.path| < 2 then Fail(NullPointer)
    else Fixup(Step(z, v), v)
  }

  /** enforceRBTreePropertiesAfterInsert: the new node is made red, then
      the loop runs. */
  function EnforceAfterInsert(z: Zipper, v: Variant): (r: Result<Tree>)
    requires z.focus.Node?
    ensures r.Ok? ==> InOrder(r.value) == InOrder(Whole(z))
  {
    Fixup(SetColor(z, Red), v)
  }

  // ---------------------------------------------------------------------
  // What the loop keeps
  // ---------------------------------------------------------------------

  /** The loop invariant: the focus is a node whose subtree is a red-red
      free (and, for the corrected variant, balanced) tree; the rest of the
      tree is red-red free apart from the focus-to-parent edge (and fits
      the focus's black height); and the root is black. */
  predicate FixupInv(z: Zipper, v: Variant) {
    && z.focus.Node?
    && NoRedRed(z.focus)
    && PathNoRedRed(z.path)
    && RootBlack(z.path)
    && (v == Corrected ==> Balanced(z.focus) && PathBalanced(z.path, BH(z.focus)))
  }

  /** What the invariant says about the neighbourhood of a violation. */
  lemma ViolationFacts(z: Zipper, v: Variant)
    requires FixupInv(z, v) && Violates(z) && |z.path| >= 2
    ensures
      var n, p, g, rest := z.focus, z.path[0], z.path[1], z.path[2..];
      && n.color == Red && p.color == Red && g.color == Black
      && NoRedRed(n.left) && NoRedRed(n.right)
      && ColorOf(n.left) == Black && ColorOf(n.right) == Black
      && NoRedRed(p.sibling) && ColorOf(p.sibling) == Black
      && NoRedRed(g.sibling)
      && PathNoRedRed(rest) && RootBlack(rest)
      && (v == Corrected ==>
            && Balanced(n.left) && Balanced(n.right)
            && BH(n.left) == BH(n) && BH(n.right) == BH(n)
            && Balanced(p.sibling) && BH(p.sibling) == BH(n)
            && Balanced(g.sibling) && BH(g.sibling) == BH(n)
            && PathBalanced(rest, BH(n) + 1))
  {
    var ps := z.path;
    assert ps[1..][0] == ps[1] && ps[1..][1..] == ps[2..];
    assert PathNoRedRed(ps[1..]);
    if ps[2..] != [] {
      assert ps[2..][|ps[2..]| - 1] == ps[|ps| - 1];
    }
    if v == Corrected {
      assert PathBalanced(ps[1..], BH(z.focus));
    }
  }

  lemma RedAuntKeepsInv(z: Zipper, v: Variant)
    requires FixupInv(z, v) && Violates(z) && |z.path| >= 2
    requires z.path[1].sibling.Node? && z.path[1].sibling.color == Red
    ensures FixupInv(RedAunt(z), v)
  {
    ViolationFacts(z, v);
    var n, p, g := z.focus, z.path[0], z.path[1];
    var p1 := p.(color := Black);
    var g1 := g.(color := Red, sibling := Paint(g.sibling, Black));
    assert RedAunt(z) == Zipper(Attach(g1, Attach(p1, n)), z.path[2..]);
  }

  lemma OuterKeepsInv(z: Zipper, v: Variant)
    requires FixupInv(z, v) && Violates(z) && |z.path| >= 2
    requires z.path[0].dir == z.path[1].dir && ColorOf(z.path[1].sibling) == Black
    ensures FixupInv(Outer(z), v)
  {
    ViolationFacts(z, v);
    SingleRotateShape(z);
  }

  lemma InnerKeepsInv(z: Zipper, v: Variant, recolor: bool)
    requires FixupInv(z, v) && Violates(z) && |z.path| >= 2
    requires z.path[0].dir != z.path[1].dir && ColorOf(z.path[1].sibling) == Black
    requires v == Corrected ==> recolor
    ensures FixupInv(Inner(z, recolor), v)
  {
    ViolationFacts(z, v);
    DoubleRotateShape(z);
  }

  lemma NoAuntInnerLeftKeepsInv(z: Zipper, v: Variant)
    requires FixupInv(z, v) && Violates(z) && |z.path| >= 2
    requires z.path[0].dir == Right && z.path[1].dir == Left && z.path[1].sibling.Leaf?
    ensures FixupInv(NoAuntInnerLeft(z), v)
  {
    ViolationFacts(z, v);
    var n, p, g, rest := z.focus, z.path[0], z.path[1], z.path[2..];
    var z1 := Zipper(Paint(n, Black), [p, g.(color := Red)] + rest);
    DoubleRotateShape(z1);
    assert z1.path[2..] == rest;
    var f := Frame(Right, Black, n.key, Node(Red, p.sibling, p.key, n.left));
    assert NoAuntInnerLeft(z) == Zipper(Node(Red, n.right, g.key, g.sibling), [f] + rest);
    assert ([f] + rest)[1..] == rest;
    if rest != [] {
      assert ([f] + rest)[|rest|] == rest[|rest| - 1];
    }
  }

  /** One pass of the loop body keeps the invariant. */
  lemma StepKeepsInv(z: Zipper, v: Variant)
    requires FixupInv(z, v) && Violates(z) && |z.path| >= 2
    ensures FixupInv(Step(z, v), v)
  {
    var p, g := z.path[0], z.path[1];
    if g.sibling.Node? && g.sibling.color == Red {
      RedAuntKeepsInv(z, v);
    } else if p.dir == g.dir {
      OuterKeepsInv(z, v);
    } else if g.sibling.Node? || g.dir == Right {
      InnerKeepsInv(z, v, g.dir == Right || v == Corrected);
    } else {
      NoAuntInnerLeftKeepsInv(z, v);
    }
  }

  /** From the invariant, the loop ends without the NullPointerException,
      in a red-red free tree; in the corrected variant also balanced. */
  lemma {:induction false} FixupRestores(z: Zipper, v: Variant)
    requires FixupInv(z, v)
    ensures Fixup(z, v).Ok?
    ensures NoRedRed(Fixup(z, v).value)
    ensures v == Corrected ==> Balanced(Fixup(z, v).value)
    decreases |z.path|
  {
    if !Violates(z) {
      PlugNoRedRed(z.focus, z.path);
      PlugBalanced(z.focus, z.path);
    } else if |z.path| < 2 {
      assert false;
    } else {
      StepKeepsInv(z, v);
      FixupRestores(Step(z, v), v);
    }
  }

  // ---------------------------------------------------------------------
  // insert
  // ---------------------------------------------------------------------

  /** RedBlackTree.insert with a given duplicate policy and fixup variant:
      a null key throws; a rejected duplicate returns false with the tree
      unchanged; otherwise the new red node is linked by insertHelper, the
      fixup runs from it and a red root is blackened. */
  function InsertWith(c: Collection, data: Option<int>, policy: DuplicatePolicy, v: Variant)
    : (r: Result<(Collection, bool)>)
    ensures data.None? ==> r == Fail(NullPointer)
    ensures r.Ok? ==> r.value.1 == InsertHelper(c, data.value, policy).1
    ensures r.Ok? ==> r.value.0.size == InsertHelper(c, data.value, policy).0.size
    ensures r.Ok? ==> InOrder(r.value.0.root) == InOrder(InsertHelper(c, data.value, policy).0.root)
  {
    match data
    case None => Fail(NullPointer)
    case Some(k) =>
      match Slot(c.root, k, policy)
      case None => Ok((c, false))
      case Some(ps) =>
        match EnforceAfterInsert(Zipper(NewNode(k), ps), v)
        case Fail(e) => Fail(e)
        case Ok(t) =>
          PlugSameInOrder(Paint(t, Black), t, []);
          Ok((Collection(Paint(t, Black), c.size + 1), true))
  }

  /** RedBlackTree.insert as written in the source. */
  function Insert(c: Collection, data: Option<int>): Result<(Collection, bool)> {
    InsertWith(c, data, RejectEqual, AsWritten)
  }

  /** RedBlackTree.insert with the grandparent recolouring of the mirror
      branch restored at lines 51-55 of the fixup. */
  function InsertCorrected(c: Collection, data: Option<int>): Result<(Collection, bool)> {
    InsertWith(c, data, RejectEqual, Corrected)
  }

  /** The fixup starts from the invariant: a new red leaf under the path of
      the slot it was linked into. */
  lemma StartKeepsInv(c: Collection, k: int, policy: DuplicatePolicy, ps: Path, v: Variant)
    requires NoRedRed(c.root) && ColorOf(c.root) == Black
    requires v == Corrected ==> Balanced(c.root)
    requires Plug(Leaf, ps) == c.root
    ensures FixupInv(SetColor(Zipper(NewNode(k), ps), Red), v)
  {
    PlugNoRedRed(Leaf, ps);
    PlugBalanced(Leaf, ps);
    if ps != [] {
      PlugRoot(NewNode(k), ps);
      PlugTwoLeaves(k, ps);
    }
  }

  /** The root's colour does not depend on what is plugged at the bottom. */
  lemma PlugTwoLeaves(k: int, ps: Path)
    requires ps != []
    ensures ColorOf(Plug(Leaf, ps)) == ColorOf(Plug(NewNode(k), ps))
  {
    PlugRoot(NewNode(k), ps);
    PlugRoot(Attach(ps[0], Leaf), ps[1..]);
  }

  /** The shared part of both insertion theorems: the insertion succeeds,
      keeps the red-red property, black root, order and size bookkeeping,
      reports whether the key was added, and adds exactly that key. */
  lemma InsertWithKeeps(c: Collection, k: int, policy: DuplicatePolicy, v: Variant)
    requires IsRedRed(c, policy) && (v == Corrected ==> Balanced(c.root))
    ensures InsertWith(c, Some(k), policy, v).Ok?
    ensures
      var r := InsertWith(c, Some(k), policy, v).value;
      && IsRedRed(r.0, policy)
      && (v == Corrected ==> Balanced(r.0.root))
      && (r.1 <==> !(policy == RejectEqual && k in InOrder(c.root)))
      && (!r.1 ==> r.0 == c)
      && (r.1 ==> exists i :: 0 <= i <= |InOrder(c.root)| &&
                    InOrder(r.0.root) == InOrder(c.root)[..i] + [k] + InOrder(c.root)[i..])
  {
    if policy == RejectEqual && k in InOrder(c.root) {
      InsertHelperRejectsDuplicate(c, k);
    } else {
      InsertHelperAddsKey(c, k, policy);
      var ps := Slot(c.root, k, policy).value;
      var z := Zipper(NewNode(k), ps);
      StartKeepsInv(c, k, policy, ps, v);
      FixupRestores(SetColor(z, Red), v);
      var t := EnforceAfterInsert(z, v).value;
      var r := InsertWith(c, Some(k), policy, v).value;
      assert r.0.root == Paint(t, Black);
      InOrderCountsNodes(r.0.root);
      InOrderCountsNodes(InsertHelper(c, k, policy).0.root);
    }
  }

  /** The corrected insert keeps a valid red-black tree valid, adds the key
      exactly when it is new, and leaves the tree unchanged otherwise. */
  lemma InsertCorrectedKeepsRedBlack(c: Collection, k: int)
    requires IsRedBlack(c, RejectEqual)
    ensures InsertCorrected(c, Some(k)).Ok?
    ensures
      var r := InsertCorrected(c, Some(k)).value;
      && IsRedBlack(r.0, RejectEqual)
      && (r.1 <==> k !in InOrder(c.root))
      && (!r.1 ==> r.0 == c)
      && (r.1 ==> exists i :: 0 <= i <= |InOrder(c.root)| &&
                    InOrder(r.0.root) == InOrder(c.root)[..i] + [k] + InOrder(c.root)[i..])
  {
    InsertWithKeeps(c, k, RejectEqual, Corrected);
  }

  /** insert as written keeps everything but the black-height property:
      order, size bookkeeping, a black root, no red node with a red child,
      and a new key joins the in-order keys at one position. */
  lemma InsertKeepsRedRed(c: Collection, k: int)
    requires IsRedRed(c, RejectEqual)
    ensures Insert(c, Some(k)).Ok?
    ensures
      var r := Insert(c, Some(k)).value;
      && IsRedRed(r.0, RejectEqual)
      && (r.1 <==> k !in InOrder(c.root))
      && (!r.1 ==> r.0 == c)
      && (r.1 ==> exists i :: 0 <= i <= |InOrder(c.root)| &&
                    InOrder(r.0.root) == InOrder(c.root)[..i] + [k] + InOrder(c.root)[i..])
  {
    InsertWithKeeps(c, k, RejectEqual, AsWritten);
  }

  // ---------------------------------------------------------------------
  // Worked examples
  // ---------------------------------------------------------------------

  function B(l: Tree, k: int, r: Tree): Tree { Node(Black, l, k, r) }
  function R(l: Tree, k: int, r: Tree): Tree { Node(Red, l, k, r) }
  function BL(k: int): Tree { Node(Black, Leaf, k, Leaf) }
  function RL(k: int): Tree { Node(Red, Leaf, k, Leaf) }

  /** Gluing a computed slot and a computed fixup run into an insert. */
  lemma InsertSteps(c: Collection, k: int, policy: DuplicatePolicy, v: Variant, ps: Path, t: Tree)
    requires Slot(c.root, k, policy) == Some(ps)
    requires Fixup(Zipper(NewNode(k), ps), v) == Ok(t)
    ensures InsertWith(c, Some(k), policy, v) == Ok((Collection(Paint(t, Black), c.size + 1), true))
  {
    assert SetColor(Zipper(NewNode(k), ps), Red) == Zipper(NewNode(k), ps);
  }

  lemma ExampleNoAuntRightLeftInsert5()
    ensures Insert(Empty(), Some(5))
         == Ok((Collection(BL(5), 1), true))
  {
    var z0 := Zipper(RL(5), []);
    assert Fixup(z0, AsWritten) == Ok(RL(5));
    InsertSteps(Empty(), 5, RejectEqual, AsWritten, [], RL(5));
  }

  lemma ExampleNoAuntRightLeftInsert15()
    ensures Insert(Collection(BL(5), 1), Some(15))
         == Ok((Collection(B(Leaf, 5, RL(15)), 2), true))
  {
    assert Descend(BL(5), 15, RejectEqual, [])
        == Descend(Leaf, 15, RejectEqual, [Frame(Right, Black, 5, Leaf)] + []);
    assert [Frame(Right, Black, 5, Leaf)] + []
        == [Frame(Right, Black, 5, Leaf)];
    var z0 := Zipper(RL(15), [Frame(Right, Black, 5, Leaf)]);
    assert Fixup(z0, AsWritten) == Ok(B(Leaf, 5, RL(15)));
    InsertSteps(Collection(BL(5), 1), 15, RejectEqual, AsWritten, [Frame(Right, Black, 5, Leaf)], B(Leaf, 5, RL(15)));
  }

  lemma ExampleNoAuntRightLeftInsert10()
    ensures Insert(Collection(B(Leaf, 5, RL(15)), 2), Some(10))
         == Ok((Collection(B(RL(5), 10, RL(15)), 3), true))
  {
    assert Descend(B(Leaf, 5, RL(15)), 10, RejectEqual, [])
        == Descend(RL(15), 10, RejectEqual, [Frame(Right, Black, 5, Leaf)] + []);
    assert Descend(RL(15), 10, RejectEqual, [Frame(Right, Black, 5, Leaf)] + [])
        == Descend(Leaf, 10, RejectEqual, [Frame(Left, Red, 15, Leaf)] + ([Frame(Right, Black, 5, Leaf)] + []));
    assert [Frame(Left, Red, 15, Leaf)] + ([Frame(Right, Black, 5, Leaf)] + [])
        == [Frame(Left, Red, 15, Leaf), Frame(Right, Black, 5, Leaf)];
    var z0 := Zipper(RL(10), [Frame(Left, Red, 15, Leaf), Frame(Right, Black, 5, Leaf)]);
    var z1 := Zipper(B(RL(5), 10, RL(15)), []);
    assert Step(z0, AsWritten) == z1;
    assert Fixup(z0, AsWritten) == Fixup(z1, AsWritten);
    assert Fixup(z1, AsWritten) == Ok(B(RL(5), 10, RL(15)));
    InsertSteps(Collection(B(Leaf, 5, RL(15)), 2), 10, RejectEqual, AsWritten, [Frame(Left, Red, 15, Leaf), Frame(Right, Black, 5, Leaf)], B(RL(5), 10, RL(15)));
  }

  /** testCaseOne: 5, 15, 10; the last insertion is the no-aunt case
      with a right parent and a left child. */
  lemma ExampleNoAuntRightLeft()
    ensures Insert(Empty(), Some(5))
         == Ok((Collection(BL(5), 1), true))
    ensures Insert(Collection(BL(5), 1), Some(15))
         == Ok((Collection(B(Leaf, 5, RL(15)), 2), true))
    ensures Insert(Collection(B(Leaf, 5, RL(15)), 2), Some(10))
         == Ok((Collection(B(RL(5), 10, RL(15)), 3), true))
  {
    ExampleNoAuntRightLeftInsert5();
    ExampleNoAuntRightLeftInsert15();
    ExampleNoAuntRightLeftInsert10();
  }

  lemma ExampleRedAuntInsert10()
    ensures Insert(Empty(), Some(10))
         == Ok((Collection(BL(10), 1), true))
  {
    var z0 := Zipper(RL(10), []);
    assert Fixup(z0, AsWritten) == Ok(RL(10));
    InsertSteps(Empty(), 10, RejectEqual, AsWritten, [], RL(10));
  }

  lemma ExampleRedAuntInsert5()
    ensures Insert(Collection(BL(10), 1), Some(5))
         == Ok((Collection(B(RL(5), 10, Leaf), 2), true))
  {
    assert Descend(BL(10), 5, RejectEqual, [])
        == Descend(Leaf, 5, RejectEqual, [Frame(Left, Black, 10, Leaf)] + []);
    assert [Frame(Left, Black, 10, Leaf)] + []
        == [Frame(Left, Black, 10, Leaf)];
    var z0 := Zipper(RL(5), [Frame(Left, Black, 10, Leaf)]);
    assert Fixup(z0, AsWritten) == Ok(B(RL(5), 10, Leaf));
    InsertSteps(Collection(BL(10), 1), 5, RejectEqual, AsWritten, [Frame(Left, Black, 10, Leaf)], B(RL(5), 10, Leaf));
  }

  lemma ExampleRedAuntInsert15()
    ensures Insert(Collection(B(RL(5), 10, Leaf), 2), Some(15))
         == Ok((Collection(B(RL(5), 10, RL(15)), 3), true))
  {
    assert Descend(B(RL(5), 10, Leaf), 15, RejectEqual, [])
        == Descend(Leaf, 15, RejectEqual, [Frame(Right, Black, 10, RL(5))] + []);
    assert [Frame(Right, Black, 10, RL(5))] + []
        == [Frame(Right, Black, 10, RL(5))];
    var z0 := Zipper(RL(15), [Frame(Right, Black, 10, RL(5))]);
    assert Fixup(z0, AsWritten) == Ok(B(RL(5), 10, RL(15)));
    InsertSteps(Collection(B(RL(5), 10, Leaf), 2), 15, RejectEqual, AsWritten, [Frame(Right, Black, 10, RL(5))], B(RL(5), 10, RL(15)));
  }

  lemma ExampleRedAuntInsert3()
    ensures Insert(Collection(B(RL(5), 10, RL(15)), 3), Some(3))
         == Ok((Collection(B(B(RL(3), 5, Leaf), 10, BL(15)), 4), true))
  {
    assert Descend(B(RL(5), 10, RL(15)), 3, RejectEqual, [])
        == Descend(RL(5), 3, RejectEqual, [Frame(Left, Black, 10, RL(15))] + []);
    assert Descend(RL(5), 3, RejectEqual, [Frame(Left, Black, 10, RL(15))] + [])
        == Descend(Leaf, 3, RejectEqual, [Frame(Left, Red, 5, Leaf)] + ([Frame(Left, Black, 10, RL(15))] + []));
    assert [Frame(Left, Red, 5, Leaf)] + ([Frame(Left, Black, 10, RL(15))] + [])
        == [Frame(Left, Red, 5, Leaf), Frame(Left, Black, 10, RL(15))];
    var z0 := Zipper(RL(3), [Frame(Left, Red, 5, Leaf), Frame(Left, Black, 10, RL(15))]);
    var z1 := Zipper(R(B(RL(3), 5, Leaf), 10, BL(15)), []);
    assert Step(z0, AsWritten) == z1;
    assert Fixup(z0, AsWritten) == Fixup(z1, AsWritten);
    assert Fixup(z1, AsWritten) == Ok(R(B(RL(3), 5, Leaf), 10, BL(15)));
    InsertSteps(Collection(B(RL(5), 10, RL(15)), 3), 3, RejectEqual, AsWritten, [Frame(Left, Red, 5, Leaf), Frame(Left, Black, 10, RL(15))], R(B(RL(3), 5, Leaf), 10, BL(15)));
  }

  /** testCaseTwo: 10, 5, 15, 3; the last insertion is the red-aunt case
      at the root. */
  lemma ExampleRedAunt()
    ensures Insert(Empty(), Some(10))
         == Ok((Collection(BL(10), 1), true))
    ensures Insert(Collection(BL(10), 1), Some(5))
         == Ok((Collection(B(RL(5), 10, Leaf), 2), true))
    ensures Insert(Collection(B(RL(5), 10, Leaf), 2), Some(15))
         == Ok((Collection(B(RL(5), 10, RL(15)), 3), true))
    ensures Insert(Collection(B(RL(5), 10, RL(15)), 3), Some(3))
         == Ok((Collection(B(B(RL(3), 5, Leaf), 10, BL(15)), 4), true))
  {
    ExampleRedAuntInsert10();
    ExampleRedAuntInsert5();
    ExampleRedAuntInsert15();
    ExampleRedAuntInsert3();
  }

  lemma ExampleEightKeysInsert2()
    ensures Insert(Empty(), Some(2))
         == Ok((Collection(BL(2), 1), true))
  {
    var z0 := Zipper(RL(2), []);
    assert Fixup(z0, AsWritten) == Ok(RL(2));
    InsertSteps(Empty(), 2, RejectEqual, AsWritten, [], RL(2));
  }

  lemma ExampleEightKeysInsert1()
    ensures Insert(Collection(BL(2), 1), Some(1))
         == Ok((Collection(B(RL(1), 2, Leaf), 2), true))
  {
    assert Descend(BL(2), 1, RejectEqual, [])
        == Descend(Leaf, 1, RejectEqual, [Frame(Left, Black, 2, Leaf)] + []);
    assert [Frame(Left, Black, 2, Leaf)] + []
        == [Frame(Left, Black, 2, Leaf)];
    var z0 := Zipper(RL(1), [Frame(Left, Black, 2, Leaf)]);
    assert Fixup(z0, AsWritten) == Ok(B(RL(1), 2, Leaf));
    InsertSteps(Collection(BL(2), 1), 1, RejectEqual, AsWritten, [Frame(Left, Black, 2, Leaf)], B(RL(1), 2, Leaf));
  }

  lemma ExampleEightKeysInsert4()
    ensures Insert(Collection(B(RL(1), 2, Leaf), 2), Some(4))
         == Ok((Collection(B(RL(1), 2, RL(4)), 3), true))
  {
    assert Descend(B(RL(1), 2, Leaf), 4, RejectEqual, [])
        == Descend(Leaf, 4, RejectEqual, [Frame(Right, Black, 2, RL(1))] + []);
    assert [Frame(Right, Black, 2, RL(1))] + []
        == [Frame(Right, Black, 2, RL(1))];
    var z0 := Zipper(RL(4), [Frame(Right, Black, 2, RL(1))]);
    assert Fixup(z0, AsWritten) == Ok(B(RL(1), 2, RL(4)));
    InsertSteps(Collection(B(RL(1), 2, Leaf), 2), 4, RejectEqual, AsWritten, [Frame(Right, Black, 2, RL(1))], B(RL(1), 2, RL(4)));
  }

  lemma ExampleEightKeysInsert5()
    ensures Insert(Collection(B(RL(1), 2, RL(4)), 3), Some(5))
         == Ok((Collection(B(BL(1), 2, B(Leaf, 4, RL(5))), 4), true))
  {
    assert Descend(B(RL(1), 2, RL(4)), 5, RejectEqual, [])
        == Descend(RL(4), 5, RejectEqual, [Frame(Right, Black, 2, RL(1))] + []);
    assert Descend(RL(4), 5, RejectEqual, [Frame(Right, Black, 2, RL(1))] + [])
        == Descend(Leaf, 5, RejectEqual, [Frame(Right, Red, 4, Leaf)] + ([Frame(Right, Black, 2, RL(1))] + []));
    assert [Frame(Right, Red, 4, Leaf)] + ([Frame(Right, Black, 2, RL(1))] + [])
        == [Frame(Right, Red, 4, Leaf), Frame(Right, Black, 2, RL(1))];
    var z0 := Zipper(RL(5), [Frame(Right, Red, 4, Leaf), Frame(Right, Black, 2, RL(1))]);
    var z1 := Zipper(R(BL(1), 2, B(Leaf, 4, RL(5))), []);
    assert Step(z0, AsWritten) == z1;
    assert Fixup(z0, AsWritten) == Fixup(z1, AsWritten);
    assert Fixup(z1, AsWritten) == Ok(R(BL(1), 2, B(Leaf, 4, RL(5))));
    InsertSteps(Collection(B(RL(1), 2, RL(4)), 3), 5, RejectEqual, AsWritten, [Frame(Right, Red, 4, Leaf), Frame(Right, Black, 2, RL(1))], R(BL(1), 2, B(Leaf, 4, RL(5))));
  }

  lemma ExampleEightKeysInsert9()
    ensures Insert(Collection(B(BL(1), 2, B(Leaf, 4, RL(5))), 4), Some(9))
         == Ok((Collection(B(BL(1), 2, B(RL(4), 5, RL(9))), 5), true))
  {
    assert Descend(B(BL(1), 2, B(Leaf, 4, RL(5))), 9, RejectEqual, [])
        == Descend(B(Leaf, 4, RL(5)), 9, RejectEqual, [Frame(Right, Black, 2, BL(1))] + []);
    assert Descend(B(Leaf, 4, RL(5)), 9, RejectEqual, [Frame(Right, Black, 2, BL(1))] + [])
        == Descend(RL(5), 9, RejectEqual, [Frame(Right, Black, 4, Leaf)] + ([Frame(Right, Black, 2, BL(1))] + []));
    assert Descend(RL(5), 9, RejectEqual, [Frame(Right, Black, 4, Leaf)] + ([Frame(Right, Black, 2, BL(1))] + []))
        == Descend(Leaf, 9, RejectEqual, [Frame(Right, Red, 5, Leaf)] + ([Frame(Right, Black, 4, Leaf)] + ([Frame(Right, Black, 2, BL(1))] + [])));
    assert [Frame(Right, Red, 5, Leaf)] + ([Frame(Right, Black, 4, Leaf)] + ([Frame(Right, Black, 2, BL(1))] + []))
        == [Frame(Right, Red, 5, Leaf), Frame(Right, Black, 4, Leaf), Frame(Right, Black, 2, BL(1))];
    var z0 := Zipper(RL(9), [Frame(Right, Red, 5, Leaf), Frame(Right, Black, 4, Leaf), Frame(Right, Black, 2, BL(1))]);
    var z1 := Zipper(B(RL(4), 5, RL(9)), [Frame(Right, Black, 2, BL(1))]);
    assert Step(z0, AsWritten) == z1;
    assert Fixup(z0, AsWritten) == Fixup(z1, AsWritten);
    assert Fixup(z1, AsWritten) == Ok(B(BL(1), 2, B(RL(4), 5, RL(9))));
    InsertSteps(Collection(B(BL(1), 2, B(Leaf, 4, RL(5))), 4), 9, RejectEqual, AsWritten, [Frame(Right, Red, 5, Leaf), Frame(Right, Black, 4, Leaf), Frame(Right, Black, 2, BL(1))], B(BL(1), 2, B(RL(4), 5, RL(9))));
  }

  lemma ExampleEightKeysInsert3()
    ensures Insert(Collection(B(BL(1), 2, B(RL(4), 5, RL(9))), 5), Some(3))
         == Ok((Collection(B(BL(1), 2, R(B(RL(3), 4, Leaf), 5, BL(9))), 6), true))
  {
    assert Descend(B(BL(1), 2, B(RL(4), 5, RL(9))), 3, RejectEqual, [])
        == Descend(B(RL(4), 5, RL(9)), 3, RejectEqual, [Frame(Right, Black, 2, BL(1))] + []);
    assert Descend(B(RL(4), 5, RL(9)), 3, RejectEqual, [Frame(Right, Black, 2, BL(1))] + [])
        == Descend(RL(4), 3, RejectEqual, [Frame(Left, Black, 5, RL(9))] + ([Frame(Right, Black, 2, BL(1))] + []));
    assert Descend(RL(4), 3, RejectEqual, [Frame(Left, Black, 5, RL(9))] + ([Frame(Right, Black, 2, BL(1))] + []))
        == Descend(Leaf, 3, RejectEqual, [Frame(Left, Red, 4, Leaf)] + ([Frame(Left, Black, 5, RL(9))] + ([Frame(Right, Black, 2, BL(1))] + [])));
    assert [Frame(Left, Red, 4, Leaf)] + ([Frame(Left, Black, 5, RL(9))] + ([Frame(Right, Black, 2, BL(1))] + []))
        == [Frame(Left, Red, 4, Leaf), Frame(Left, Black, 5, RL(9)), Frame(Right, Black, 2, BL(1))];
    var z0 := Zipper(RL(3), [Frame(Left, Red, 4, Leaf), Frame(Left, Black, 5, RL(9)), Frame(Right, Black, 2, BL(1))]);
    var z1 := Zipper(R(B(RL(3), 4, Leaf), 5, BL(9)), [Frame(Right, Black, 2, BL(1))]);
    assert Step(z0, AsWritten) == z1;
    assert Fixup(z0, AsWritten) == Fixup(z1, AsWritten);
    assert Fixup(z1, AsWritten) == Ok(B(BL(1), 2, R(B(RL(3), 4, Leaf), 5, BL(9))));
    InsertSteps(Collection(B(BL(1), 2, B(RL(4), 5, RL(9))), 5), 3, RejectEqual, AsWritten, [Frame(Left, Red, 4, Leaf), Frame(Left, Black, 5, RL(9)), Frame(Right, Black, 2, BL(1))], B(BL(1), 2, R(B(RL(3), 4, Leaf), 5, BL(9))));
  }

  lemma ExampleEightKeysInsert6()
    ensures Insert(Collection(B(BL(1), 2, R(B(RL(3), 4, Leaf), 5, BL(9))), 6), Some(6))
         == Ok((Collection(B(BL(1), 2, R(B(RL(3), 4, Leaf), 5, B(RL(6), 9, Leaf))), 7), true))
  {
    assert Descend(B(BL(1), 2, R(B(RL(3), 4, Leaf), 5, BL(9))), 6, RejectEqual, [])
        == Descend(R(B(RL(3), 4, Leaf), 5, BL(9)), 6, RejectEqual, [Frame(Right, Black, 2, BL(1))] + []);
    assert Descend(R(B(RL(3), 4, Leaf), 5, BL(9)), 6, RejectEqual, [Frame(Right, Black, 2, BL(1))] + [])
        == Descend(BL(9), 6, RejectEqual, [Frame(Right, Red, 5, B(RL(3), 4, Leaf))] + ([Frame(Right, Black, 2, BL(1))] + []));
    assert Descend(BL(9), 6, RejectEqual, [Frame(Right, Red, 5, B(RL(3), 4, Leaf))] + ([Frame(Right, Black, 2, BL(1))] + []))
        == Descend(Leaf, 6, RejectEqual, [Frame(Left, Black, 9, Leaf)] + ([Frame(Right, Red, 5, B(RL(3), 4, Leaf))] + ([Frame(Right, Black, 2, BL(1))] + [])));
    assert [Frame(Left, Black, 9, Leaf)] + ([Frame(Right, Red, 5, B(RL(3), 4, Leaf))] + ([Frame(Right, Black, 2, BL(1))] + []))
        == [Frame(Left, Black, 9, Leaf), Frame(Right, Red, 5, B(RL(3), 4, Leaf)), Frame(Right, Black, 2, BL(1))];
    var z0 := Zipper(RL(6), [Frame(Left, Black, 9, Leaf), Frame(Right, Red, 5, B(RL(3), 4, Leaf)), Frame(Right, Black, 2, BL(1))]);
    assert Fixup(z0, AsWritten) == Ok(B(BL(1), 2, R(B(RL(3), 4, Leaf), 5, B(RL(6), 9, Leaf))));
    InsertSteps(Collection(B(BL(1), 2, R(B(RL(3), 4, Leaf), 5, BL(9))), 6), 6, RejectEqual, AsWritten, [Frame(Left, Black, 9, Leaf), Frame(Right, Red, 5, B(RL(3), 4, Leaf)), Frame(Right, Black, 2, BL(1))], B(BL(1), 2, R(B(RL(3), 4, Leaf), 5, B(RL(6), 9, Leaf))));
  }

  lemma ExampleEightKeysInsert7()
    ensures Insert(Collection(B(BL(1), 2, R(B(RL(3), 4, Leaf), 5, B(RL(6), 9, Leaf))), 7), Some(7))
         == Ok((Collection(B(BL(1), 2, R(B(RL(3), 4, Leaf), 5, B(RL(6), 7, RL(9)))), 8), true))
  {
    assert Descend(B(BL(1), 2, R(B(RL(3), 4, Leaf), 5, B(RL(6), 9, Leaf))), 7, RejectEqual, [])
        == Descend(R(B(RL(3), 4, Leaf), 5, B(RL(6), 9, Leaf)), 7, RejectEqual, [Frame(Right, Black, 2, BL(1))] + []);
    assert Descend(R(B(RL(3), 4, Leaf), 5, B(RL(6), 9, Leaf)), 7, RejectEqual, [Frame(Right, Black, 2, BL(1))] + [])
        == Descend(B(RL(6), 9, Leaf), 7, RejectEqual, [Frame(Right, Red, 5, B(RL(3), 4, Leaf))] + ([Frame(Right, Black, 2, BL(1))] + []));
    assert Descend(B(RL(6), 9, Leaf), 7, RejectEqual, [Frame(Right, Red, 5, B(RL(3), 4, Leaf))] + ([Frame(Right, Black, 2, BL(1))] + []))
        == Descend(RL(6), 7, RejectEqual, [Frame(Left, Black, 9, Leaf)] + ([Frame(Right, Red, 5, B(RL(3), 4, Leaf))] + ([Frame(Right, Black, 2, BL(1))] + [])));
    assert Descend(RL(6), 7, RejectEqual, [Frame(Left, Black, 9, Leaf)] + ([Frame(Right, Red, 5, B(RL(3), 4, Leaf))] + ([Frame(Right, Black, 2, BL(1))] + [])))
        == Descend(Leaf, 7, RejectEqual, [Frame(Right, Red, 6, Leaf)] + ([Frame(Left, Black, 9, Leaf)] + ([Frame(Right, Red, 5, B(RL(3), 4, Leaf))] + ([Frame(Right, Black, 2, BL(1))] + []))));
    assert [Frame(Right, Red, 6, Leaf)] + ([Frame(Left, Black, 9, Leaf)] + ([Frame(Right, Red, 5, B(RL(3), 4, Leaf))] + ([Frame(Right, Black, 2, BL(1))] + [])))
        == [Frame(Right, Red, 6, Leaf), Frame(Left, Black, 9, Leaf), Frame(Right, Red, 5, B(RL(3), 4, Leaf)), Frame(Right, Black, 2, BL(1))];
    var z0 := Zipper(RL(7), [Frame(Right, Red, 6, Leaf), Frame(Left, Black, 9, Leaf), Frame(Right, Red, 5, B(RL(3), 4, Leaf)), Frame(Right, Black, 2, BL(1))]);
    var z1 := Zipper(RL(9), [Frame(Right, Black, 7, RL(6)), Frame(Right, Red, 5, B(RL(3), 4, Leaf)), Frame(Right, Black, 2, BL(1))]);
    assert Step(z0, AsWritten) == z1;
    assert Fixup(z0, AsWritten) == Fixup(z1, AsWritten);
    assert Fixup(z1, AsWritten) == Ok(B(BL(1), 2, R(B(RL(3), 4, Leaf), 5, B(RL(6), 7, RL(9)))));
    InsertSteps(Collection(B(BL(1), 2, R(B(RL(3), 4, Leaf), 5, B(RL(6), 9, Leaf))), 7), 7, RejectEqual, AsWritten, [Frame(Right, Red, 6, Leaf), Frame(Left, Black, 9, Leaf), Frame(Right, Red, 5, B(RL(3), 4, Leaf)), Frame(Right, Black, 2, BL(1))], B(BL(1), 2, R(B(RL(3), 4, Leaf), 5, B(RL(6), 7, RL(9)))));
  }

  /** testCaseThree: 2, 1, 4, 5, 9, 3, 6, 7. */
  lemma ExampleEightKeys()
    ensures Insert(Empty(), Some(2))
         == Ok((Collection(BL(2), 1), true))
    ensures Insert(Collection(BL(2), 1), Some(1))
         == Ok((Collection(B(RL(1), 2, Leaf), 2), true))
    ensures Insert(Collection(B(RL(1), 2, Leaf), 2), Some(4))
         == Ok((Collection(B(RL(1), 2, RL(4)), 3), true))
    ensures Insert(Collection(B(RL(1), 2, RL(4)), 3), Some(5))
         == Ok((Collection(B(BL(1), 2, B(Leaf, 4, RL(5))), 4), true))
    ensures Insert(Collection(B(BL(1), 2, B(Leaf, 4, RL(5))), 4), Some(9))
         == Ok((Collection(B(BL(1), 2, B(RL(4), 5, RL(9))), 5), true))
    ensures Insert(Collection(B(BL(1), 2, B(RL(4), 5, RL(9))), 5), Some(3))
         == Ok((Collection(B(BL(1), 2, R(B(RL(3), 4, Leaf), 5, BL(9))), 6), true))
    ensures Insert(Collection(B(BL(1), 2, R(B(RL(3), 4, Leaf), 5, BL(9))), 6), Some(6))
         == Ok((Collection(B(BL(1), 2, R(B(RL(3), 4, Leaf), 5, B(RL(6), 9, Leaf))), 7), true))
    ensures Insert(Collection(B(BL(1), 2, R(B(RL(3), 4, Leaf), 5, B(RL(6), 9, Leaf))), 7), Some(7))
         == Ok((Collection(B(BL(1), 2, R(B(RL(3), 4, Leaf), 5, B(RL(6), 7, RL(9)))), 8), true))
  {
    ExampleEightKeysInsert2();
    ExampleEightKeysInsert1();
    ExampleEightKeysInsert4();
    ExampleEightKeysInsert5();
    ExampleEightKeysInsert9();
    ExampleEightKeysInsert3();
    ExampleEightKeysInsert6();
    ExampleEightKeysInsert7();
  }

  /** The tree 20, 10, 30, 5, 15, 12, 17 builds (both variants agree on
      these insertions). */
  function SevenKeys(): Collection {
    Collection(B(R(BL(5), 10, B(RL(12), 15, RL(17))), 20, BL(30)), 7)
  }

  lemma SevenKeysIsRedBlack()
    ensures IsRedBlack(SevenKeys(), RejectEqual)
  {
    var s := [5, 10, 12, 15, 17, 20, 30];
    assert InOrder(SevenKeys().root) == s;
    StrictlyAscendingByNeighbours(s);
  }

  lemma SevenKeysBuiltInsert20()
    ensures Insert(Empty(), Some(20))
         == Ok((Collection(BL(20), 1), true))
  {
    var z0 := Zipper(RL(20), []);
    assert Fixup(z0, AsWritten) == Ok(RL(20));
    InsertSteps(Empty(), 20, RejectEqual, AsWritten, [], RL(20));
  }

  lemma SevenKeysBuiltInsert10()
    ensures Insert(Collection(BL(20), 1), Some(10))
         == Ok((Collection(B(RL(10), 20, Leaf), 2), true))
  {
    assert Descend(BL(20), 10, RejectEqual, [])
        == Descend(Leaf, 10, RejectEqual, [Frame(Left, Black, 20, Leaf)] + []);
    assert [Frame(Left, Black, 20, Leaf)] + []
        == [Frame(Left, Black, 20, Leaf)];
    var z0 := Zipper(RL(10), [Frame(Left, Black, 20, Leaf)]);
    assert Fixup(z0, AsWritten) == Ok(B(RL(10), 20, Leaf));
    InsertSteps(Collection(BL(20), 1), 10, RejectEqual, AsWritten, [Frame(Left, Black, 20, Leaf)], B(RL(10), 20, Leaf));
  }

  lemma SevenKeysBuiltInsert30()
    ensures Insert(Collection(B(RL(10), 20, Leaf), 2), Some(30))
         == Ok((Collection(B(RL(10), 20, RL(30)), 3), true))
  {
    assert Descend(B(RL(10), 20, Leaf), 30, RejectEqual, [])
        == Descend(Leaf, 30, RejectEqual, [Frame(Right, Black, 20, RL(10))] + []);
    assert [Frame(Right, Black, 20, RL(10))] + []
        == [Frame(Right, Black, 20, RL(10))];
    var z0 := Zipper(RL(30), [Frame(Right, Black, 20, RL(10))]);
    assert Fixup(z0, AsWritten) == Ok(B(RL(10), 20, RL(30)));
    InsertSteps(Collection(B(RL(10), 20, Leaf), 2), 30, RejectEqual, AsWritten, [Frame(Right, Black, 20, RL(10))], B(RL(10), 20, RL(30)));
  }

  lemma SevenKeysBuiltInsert5()
    ensures Insert(Collection(B(RL(10), 20, RL(30)), 3), Some(5))
         == Ok((Collection(B(B(RL(5), 10, Leaf), 20, BL(30)), 4), true))
  {
    assert Descend(B(RL(10), 20, RL(30)), 5, RejectEqual, [])
        == Descend(RL(10), 5, RejectEqual, [Frame(Left, Black, 20, RL(30))] + []);
    assert Descend(RL(10), 5, RejectEqual, [Frame(Left, Black, 20, RL(30))] + [])
        == Descend(Leaf, 5, RejectEqual, [Frame(Left, Red, 10, Leaf)] + ([Frame(Left, Black, 20, RL(30))] + []));
    assert [Frame(Left, Red, 10, Leaf)] + ([Frame(Left, Black, 20, RL(30))] + [])
        == [Frame(Left, Red, 10, Leaf), Frame(Left, Black, 20, RL(30))];
    var z0 := Zipper(RL(5), [Frame(Left, Red, 10, Leaf), Frame(Left, Black, 20, RL(30))]);
    var z1 := Zipper(R(B(RL(5), 10, Leaf), 20, BL(30)), []);
    assert Step(z0, AsWritten) == z1;
    assert Fixup(z0, AsWritten) == Fixup(z1, AsWritten);
    assert Fixup(z1, AsWritten) == Ok(R(B(RL(5), 10, Leaf), 20, BL(30)));
    InsertSteps(Collection(B(RL(10), 20, RL(30)), 3), 5, RejectEqual, AsWritten, [Frame(Left, Red, 10, Leaf), Frame(Left, Black, 20, RL(30))], R(B(RL(5), 10, Leaf), 20, BL(30)));
  }

  lemma SevenKeysBuiltInsert15()
    ensures Insert(Collection(B(B(RL(5), 10, Leaf), 20, BL(30)), 4), Some(15))
         == Ok((Collection(B(B(RL(5), 10, RL(15)), 20, BL(30)), 5), true))
  {
    assert Descend(B(B(RL(5), 10, Leaf), 20, BL(30)), 15, RejectEqual, [])
        == Descend(B(RL(5), 10, Leaf), 15, RejectEqual, [Frame(Left, Black, 20, BL(30))] + []);
    assert Descend(B(RL(5), 10, Leaf), 15, RejectEqual, [Frame(Left, Black, 20, BL(30))] + [])
        == Descend(Leaf, 15, RejectEqual, [Frame(Right, Black, 10, RL(5))] + ([Frame(Left, Black, 20, BL(30))] + []));
    assert [Frame(Right, Black, 10, RL(5))] + ([Frame(Left, Black, 20, BL(30))] + [])
        == [Frame(Right, Black, 10, RL(5)), Frame(Left, Black, 20, BL(30))];
    var z0 := Zipper(RL(15), [Frame(Right, Black, 10, RL(5)), Frame(Left, Black, 20, BL(30))]);
    assert Fixup(z0, AsWritten) == Ok(B(B(RL(5), 10, RL(15)), 20, BL(30)));
    InsertSteps(Collection(B(B(RL(5), 10, Leaf), 20, BL(30)), 4), 15, RejectEqual, AsWritten, [Frame(Right, Black, 10, RL(5)), Frame(Left, Black, 20, BL(30))], B(B(RL(5), 10, RL(15)), 20, BL(30)));
  }

  lemma SevenKeysBuiltInsert12()
    ensures Insert(Collection(B(B(RL(5), 10, RL(15)), 20, BL(30)), 5), Some(12))
         == Ok((Collection(B(R(BL(5), 10, B(RL(12), 15, Leaf)), 20, BL(30)), 6), true))
  {
    assert Descend(B(B(RL(5), 10, RL(15)), 20, BL(30)), 12, RejectEqual, [])
        == Descend(B(RL(5), 10, RL(15)), 12, RejectEqual, [Frame(Left, Black, 20, BL(30))] + []);
    assert Descend(B(RL(5), 10, RL(15)), 12, RejectEqual, [Frame(Left, Black, 20, BL(30))] + [])
        == Descend(RL(15), 12, RejectEqual, [Frame(Right, Black, 10, RL(5))] + ([Frame(Left, Black, 20, BL(30))] + []));
    assert Descend(RL(15), 12, RejectEqual, [Frame(Right, Black, 10, RL(5))] + ([Frame(Left, Black, 20, BL(30))] + []))
        == Descend(Leaf, 12, RejectEqual, [Frame(Left, Red, 15, Leaf)] + ([Frame(Right, Black, 10, RL(5))] + ([Frame(Left, Black, 20, BL(30))] + [])));
    assert [Frame(Left, Red, 15, Leaf)] + ([Frame(Right, Black, 10, RL(5))] + ([Frame(Left, Black, 20, BL(30))] + []))
        == [Frame(Left, Red, 15, Leaf), Frame(Right, Black, 10, RL(5)), Frame(Left, Black, 20, BL(30))];
    var z0 := Zipper(RL(12), [Frame(Left, Red, 15, Leaf), Frame(Right, Black, 10, RL(5)), Frame(Left, Black, 20, BL(30))]);
    var z1 := Zipper(R(BL(5), 10, B(RL(12), 15, Leaf)), [Frame(Left, Black, 20, BL(30))]);
    assert Step(z0, AsWritten) == z1;
    assert Fixup(z0, AsWritten) == Fixup(z1, AsWritten);
    assert Fixup(z1, AsWritten) == Ok(B(R(BL(5), 10, B(RL(12), 15, Leaf)), 20, BL(30)));
    InsertSteps(Collection(B(B(RL(5), 10, RL(15)), 20, BL(30)), 5), 12, RejectEqual, AsWritten, [Frame(Left, Red, 15, Leaf), Frame(Right, Black, 10, RL(5)), Frame(Left, Black, 20, BL(30))], B(R(BL(5), 10, B(RL(12), 15, Leaf)), 20, BL(30)));
  }

  lemma SevenKeysBuiltInsert17()
    ensures Insert(Collection(B(R(BL(5), 10, B(RL(12), 15, Leaf)), 20, BL(30)), 6), Some(17))
         == Ok((Collection(B(R(BL(5), 10, B(RL(12), 15, RL(17))), 20, BL(30)), 7), true))
  {
    assert Descend(B(R(BL(5), 10, B(RL(12), 15, Leaf)), 20, BL(30)), 17, RejectEqual, [])
        == Descend(R(BL(5), 10, B(RL(12), 15, Leaf)), 17, RejectEqual, [Frame(Left, Black, 20, BL(30))] + []);
    assert Descend(R(BL(5), 10, B(RL(12), 15, Leaf)), 17, RejectEqual, [Frame(Left, Black, 20, BL(30))] + [])
        == Descend(B(RL(12), 15, Leaf), 17, RejectEqual, [Frame(Right, Red, 10, BL(5))] + ([Frame(Left, Black, 20, BL(30))] + []));
    assert Descend(B(RL(12), 15, Leaf), 17, RejectEqual, [Frame(Right, Red, 10, BL(5))] + ([Frame(Left, Black, 20, BL(30))] + []))
        == Descend(Leaf, 17, RejectEqual, [Frame(Right, Black, 15, RL(12))] + ([Frame(Right, Red, 10, BL(5))] + ([Frame(Left, Black, 20, BL(30))] + [])));
    assert [Frame(Right, Black, 15, RL(12))] + ([Frame(Right, Red, 10, BL(5))] + ([Frame(Left, Black, 20, BL(30))] + []))
        == [Frame(Right, Black, 15, RL(12)), Frame(Right, Red, 10, BL(5)), Frame(Left, Black, 20, BL(30))];
    var z0 := Zipper(RL(17), [Frame(Right, Black, 15, RL(12)), Frame(Right, Red, 10, BL(5)), Frame(Left, Black, 20, BL(30))]);
    assert Fixup(z0, AsWritten) == Ok(B(R(BL(5), 10, B(RL(12), 15, RL(17))), 20, BL(30)));
    InsertSteps(Collection(B(R(BL(5), 10, B(RL(12), 15, Leaf)), 20, BL(30)), 6), 17, RejectEqual, AsWritten, [Frame(Right, Black, 15, RL(12)), Frame(Right, Red, 10, BL(5)), Frame(Left, Black, 20, BL(30))], B(R(BL(5), 10, B(RL(12), 15, RL(17))), 20, BL(30)));
  }

  /** Insertion as written builds SevenKeys() from 20, 10, 30, 5, 15, 12, 17. */
  lemma SevenKeysBuilt()
    ensures Insert(Empty(), Some(20))
         == Ok((Collection(BL(20), 1), true))
    ensures Insert(Collection(BL(20), 1), Some(10))
         == Ok((Collection(B(RL(10), 20, Leaf), 2), true))
    ensures Insert(Collection(B(RL(10), 20, Leaf), 2), Some(30))
         == Ok((Collection(B(RL(10), 20, RL(30)), 3), true))
    ensures Insert(Collection(B(RL(10), 20, RL(30)), 3), Some(5))
         == Ok((Collection(B(B(RL(5), 10, Leaf), 20, BL(30)), 4), true))
    ensures Insert(Collection(B(B(RL(5), 10, Leaf), 20, BL(30)), 4), Some(15))
         == Ok((Collection(B(B(RL(5), 10, RL(15)), 20, BL(30)), 5), true))
    ensures Insert(Collection(B(B(RL(5), 10, RL(15)), 20, BL(30)), 5), Some(12))
         == Ok((Collection(B(R(BL(5), 10, B(RL(12), 15, Leaf)), 20, BL(30)), 6), true))
    ensures Insert(Collection(B(R(BL(5), 10, B(RL(12), 15, Leaf)), 20, BL(30)), 6), Some(17))
         == Ok((Collection(B(R(BL(5), 10, B(RL(12), 15, RL(17))), 20, BL(30)), 7), true))
  {
    SevenKeysBuiltInsert20();
    SevenKeysBuiltInsert10();
    SevenKeysBuiltInsert30();
    SevenKeysBuiltInsert5();
    SevenKeysBuiltInsert15();
    SevenKeysBuiltInsert12();
    SevenKeysBuiltInsert17();
  }

  /** As written, 13 lands in SevenKeys() with 20 left black. */
  lemma AsWrittenInsertThirteen()
    ensures Insert(Collection(B(R(BL(5), 10, B(RL(12), 15, RL(17))), 20, BL(30)), 7), Some(13))
         == Ok((Collection(B(R(BL(5), 10, B(Leaf, 12, RL(13))), 15, B(BL(17), 20, BL(30))), 8), true))
  {
    assert Descend(B(R(BL(5), 10, B(RL(12), 15, RL(17))), 20, BL(30)), 13, RejectEqual, [])
        == Descend(R(BL(5), 10, B(RL(12), 15, RL(17))), 13, RejectEqual, [Frame(Left, Black, 20, BL(30))] + []);
    assert Descend(R(BL(5), 10, B(RL(12), 15, RL(17))), 13, RejectEqual, [Frame(Left, Black, 20, BL(30))] + [])
        == Descend(B(RL(12), 15, RL(17)), 13, RejectEqual, [Frame(Right, Red, 10, BL(5))] + ([Frame(Left, Black, 20, BL(30))] + []));
    assert Descend(B(RL(12), 15, RL(17)), 13, RejectEqual, [Frame(Right, Red, 10, BL(5))] + ([Frame(Left, Black, 20, BL(30))] + []))
        == Descend(RL(12), 13, RejectEqual, [Frame(Left, Black, 15, RL(17))] + ([Frame(Right, Red, 10, BL(5))] + ([Frame(Left, Black, 20, BL(30))] + [])));
    assert Descend(RL(12), 13, RejectEqual, [Frame(Left, Black, 15, RL(17))] + ([Frame(Right, Red, 10, BL(5))] + ([Frame(Left, Black, 20, BL(30))] + [])))
        == Descend(Leaf, 13, RejectEqual, [Frame(Right, Red, 12, Leaf)] + ([Frame(Left, Black, 15, RL(17))] + ([Frame(Right, Red, 10, BL(5))] + ([Frame(Left, Black, 20, BL(30))] + []))));
    assert [Frame(Right, Red, 12, Leaf)] + ([Frame(Left, Black, 15, RL(17))] + ([Frame(Right, Red, 10, BL(5))] + ([Frame(Left, Black, 20, BL(30))] + [])))
        == [Frame(Right, Red, 12, Leaf), Frame(Left, Black, 15, RL(17)), Frame(Right, Red, 10, BL(5)), Frame(Left, Black, 20, BL(30))];
    var z0 := Zipper(RL(13), [Frame(Right, Red, 12, Leaf), Frame(Left, Black, 15, RL(17)), Frame(Right, Red, 10, BL(5)), Frame(Left, Black, 20, BL(30))]);
    var z1 := Zipper(R(B(Leaf, 12, RL(13)), 15, BL(17)), [Frame(Right, Red, 10, BL(5)), Frame(Left, Black, 20, BL(30))]);
    assert Step(z0, AsWritten) == z1;
    assert Fixup(z0, AsWritten) == Fixup(z1, AsWritten);
    var z2 := Zipper(B(R(BL(5), 10, B(Leaf, 12, RL(13))), 15, B(BL(17), 20, BL(30))), []);
    assert Step(z1, AsWritten) == z2;
    assert Fixup(z1, AsWritten) == Fixup(z2, AsWritten);
    assert Fixup(z2, AsWritten) == Ok(B(R(BL(5), 10, B(Leaf, 12, RL(13))), 15, B(BL(17), 20, BL(30))));
    InsertSteps(Collection(B(R(BL(5), 10, B(RL(12), 15, RL(17))), 20, BL(30)), 7), 13, RejectEqual, AsWritten, [Frame(Right, Red, 12, Leaf), Frame(Left, Black, 15, RL(17)), Frame(Right, Red, 10, BL(5)), Frame(Left, Black, 20, BL(30))], B(R(BL(5), 10, B(Leaf, 12, RL(13))), 15, B(BL(17), 20, BL(30))));
  }

  /** Corrected, 13 lands in SevenKeys() with 20 recoloured red. */
  lemma CorrectedInsertThirteen()
    ensures InsertCorrected(Collection(B(R(BL(5), 10, B(RL(12), 15, RL(17))), 20, BL(30)), 7), Some(13))
         == Ok((Collection(B(R(BL(5), 10, B(Leaf, 12, RL(13))), 15, R(BL(17), 20, BL(30))), 8), true))
  {
    assert Descend(B(R(BL(5), 10, B(RL(12), 15, RL(17))), 20, BL(30)), 13, RejectEqual, [])
        == Descend(R(BL(5), 10, B(RL(12), 15, RL(17))), 13, RejectEqual, [Frame(Left, Black, 20, BL(30))] + []);
    assert Descend(R(BL(5), 10, B(RL(12), 15, RL(17))), 13, RejectEqual, [Frame(Left, Black, 20, BL(30))] + [])
        == Descend(B(RL(12), 15, RL(17)), 13, RejectEqual, [Frame(Right, Red, 10, BL(5))] + ([Frame(Left, Black, 20, BL(30))] + []));
    assert Descend(B(RL(12), 15, RL(17)), 13, RejectEqual, [Frame(Right, Red, 10, BL(5))] + ([Frame(Left, Black, 20, BL(30))] + []))
        == Descend(RL(12), 13, RejectEqual, [Frame(Left, Black, 15, RL(17))] + ([Frame(Right, Red, 10, BL(5))] + ([Frame(Left, Black, 20, BL(30))] + [])));
    assert Descend(RL(12), 13, RejectEqual, [Frame(Left, Black, 15, RL(17))] + ([Frame(Right, Red, 10, BL(5))] + ([Frame(Left, Black, 20, BL(30))] + [])))
        == Descend(Leaf, 13, RejectEqual, [Frame(Right, Red, 12, Leaf)] + ([Frame(Left, Black, 15, RL(17))] + ([Frame(Right, Red, 10, BL(5))] + ([Frame(Left, Black, 20, BL(30))] + []))));
    assert [Frame(Right, Red, 12, Leaf)] + ([Frame(Left, Black, 15, RL(17))] + ([Frame(Right, Red, 10, BL(5))] + ([Frame(Left, Black, 20, BL(30))] + [])))
        == [Frame(Right, Red, 12, Leaf), Frame(Left, Black, 15, RL(17)), Frame(Right, Red, 10, BL(5)), Frame(Left, Black, 20, BL(30))];
    var z0 := Zipper(RL(13), [Frame(Right, Red, 12, Leaf), Frame(Left, Black, 15, RL(17)), Frame(Right, Red, 10, BL(5)), Frame(Left, Black, 20, BL(30))]);
    var z1 := Zipper(R(B(Leaf, 12, RL(13)), 15, BL(17)), [Frame(Right, Red, 10, BL(5)), Frame(Left, Black, 20, BL(30))]);
    assert Step(z0, Corrected) == z1;
    assert Fixup(z0, Corrected) == Fixup(z1, Corrected);
    var z2 := Zipper(B(R(BL(5), 10, B(Leaf, 12, RL(13))), 15, R(BL(17), 20, BL(30))), []);
    assert Step(z1, Corrected) == z2;
    assert Fixup(z1, Corrected) == Fixup(z2, Corrected);
    assert Fixup(z2, Corrected) == Ok(B(R(BL(5), 10, B(Leaf, 12, RL(13))), 15, R(BL(17), 20, BL(30))));
    InsertSteps(Collection(B(R(BL(5), 10, B(RL(12), 15, RL(17))), 20, BL(30)), 7), 13, RejectEqual, Corrected, [Frame(Right, Red, 12, Leaf), Frame(Left, Black, 15, RL(17)), Frame(Right, Red, 10, BL(5)), Frame(Left, Black, 20, BL(30))], B(R(BL(5), 10, B(Leaf, 12, RL(13))), 15, R(BL(17), 20, BL(30))));
  }

  /** Inserting 13 into SevenKeys() recolours at the red aunt 17, then
      reaches the black-aunt, left-parent, inner-grandchild branch with 15
      under 10 under 20: as written, 20 stays black after moving under 15,
      so paths through 10 meet one black node fewer than paths through 20. */
  lemma AsWrittenBreaksBlackHeight()
    ensures IsRedBlack(SevenKeys(), RejectEqual)
    ensures Insert(SevenKeys(), Some(13)).Ok?
    ensures !Balanced(Insert(SevenKeys(), Some(13)).value.0.root)
  {
    SevenKeysIsRedBlack();
    AsWrittenInsertThirteen();
  }

  /** The corrected branch recolours 20 red and the tree stays a valid
      red-black tree. */
  lemma CorrectedKeepsBlackHeight()
    ensures InsertCorrected(SevenKeys(), Some(13)).Ok?
    ensures IsRedBlack(InsertCorrected(SevenKeys(), Some(13)).value.0, RejectEqual)
  {
    CorrectedInsertThirteen();
    ThirteenIsRedBlack();
  }

  lemma ThirteenIsRedBlack()
    ensures IsRedBlack(Collection(B(R(BL(5), 10, B(Leaf, 12, RL(13))), 15, R(BL(17), 20, BL(30))), 8),
                       RejectEqual)
  {
    var t := B(R(BL(5), 10, B(Leaf, 12, RL(13))), 15, R(BL(17), 20, BL(30)));
    var s := [5, 10, 12, 13, 15, 17, 20, 30];
    assert InOrder(t) == s;
    StrictlyAscendingByNeighbours(s);
  }
}
