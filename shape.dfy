/** The shape of a splay tree: a binary tree whose nodes are named by their
    index in the tree's node arena. The index `NoNode` (-1) stands for an
    absent child, parent or root, as `None` does in the Python. */
module Shape {

  const NoNode: int := -1

  datatype Tree = Leaf | Node(left: Tree, id: int, right: Tree)

  /** The node indices that occur in `t`. */
  function Ids(t: Tree): set<int> {
    match t
    case Leaf => {}
    case Node(l, i, r) => Ids(l) + {i} + Ids(r)
  }

  /** No index occurs twice in `t`. */
  predicate Unique(t: Tree) {
    match t
    case Leaf => true
    case Node(l, i, r) =>
      Unique(l) && Unique(r) && i !in Ids(l) && i !in Ids(r) && Ids(l) !! Ids(r)
  }

  /** The index of the root of `t`, or `NoNode` for the empty tree. */
  function RootId(t: Tree): (r: int)
    ensures t.Node? ==> r in Ids(t)
  {
    if t.Leaf? then NoNode else t.id
  }

  /** The subtree of `t` rooted at node `i` (empty when `i` is not in `t`). */
  function Find(t: Tree, i: int): (s: Tree)
    ensures s.Node? <==> i in Ids(t)
    ensures s.Node? ==> s.id == i && Ids(s) <= Ids(t)
  {
    match t
    case Leaf => Leaf
    case Node(l, j, r) =>
      if j == i then t else if i in Ids(l) then Find(l, i) else Find(r, i)
  }

  /** `t` with the subtree rooted at node `i` replaced by `s`. */
  function Replace(t: Tree, i: int, s: Tree): Tree {
    match t
    case Leaf => Leaf
    case Node(l, j, r) =>
      if j == i then s
      else if i in Ids(l) then Node(Replace(l, i, s), j, r)
      else Node(l, j, Replace(r, i, s))
  }

  /** The number of edges from the root of `t` down to node `i`. */
  function Depth(t: Tree, i: int): (d: nat)
    requires i in Ids(t)
    ensures d == 0 <==> i == t.id
  {
    match t
    case Node(l, j, r) =>
      if j == i then 0 else if i in Ids(l) then 1 + Depth(l, i) else 1 + Depth(r, i)
  }

  /** A right rotation at the root of `s`: its left child takes its place. */
  function RotateRightHere(s: Tree): Tree {
    if s.Node? && s.left.Node? then Node(s.left.left, s.left.id, Node(s.left.right, s.id, s.right))
    else s
  }

  /** A left rotation at the root of `s`: its right child takes its place. */
  function RotateLeftHere(s: Tree): Tree {
    if s.Node? && s.right.Node? then Node(Node(s.left, s.id, s.right.left), s.right.id, s.right.right)
    else s
  }

  /** The shape after a right rotation at node `i`. */
  function RotateRightAt(t: Tree, i: int): Tree {
    Replace(t, i, RotateRightHere(Find(t, i)))
  }

  /** The shape after a left rotation at node `i`. */
  function RotateLeftAt(t: Tree, i: int): Tree {
    Replace(t, i, RotateLeftHere(Find(t, i)))
  }

  /** An empty child slot: the left or right slot of node `parent`. */
  datatype Slot = Slot(parent: int, left: bool)

  /** `s` with a new leaf `n` in its left or right child slot. */
  function AttachHere(s: Tree, left: bool, n: int): Tree {
    if s.Leaf? then s
    else if left then Node(Node(Leaf, n, Leaf), s.id, s.right)
    else Node(s.left, s.id, Node(Leaf, n, Leaf))
  }

  /** The shape after a new leaf `n` fills `slot`. */
  function Attach(t: Tree, slot: Slot, n: int): Tree {
    Replace(t, slot.parent, AttachHere(Find(t, slot.parent), slot.left, n))
  }

  // ---------------------------------------------------------------------------
  // Lemmas about subtrees and replacement
  // ---------------------------------------------------------------------------

  lemma {:induction false} FindUnique(t: Tree, i: int)
    requires Unique(t) && i in Ids(t)
    ensures Unique(Find(t, i))
  {
    match t
    case Node(l, j, r) =>
      if j != i {
        if i in Ids(l) { FindUnique(l, i); } else { FindUnique(r, i); }
      }
  }

  /** The children of the subtree at `i` are themselves the subtrees at their roots. */
  lemma {:induction false} FindChild(t: Tree, i: int)
    requires Unique(t) && i in Ids(t)
    ensures var s := Find(t, i);
      && (s.left.Node? ==> Find(t, s.left.id) == s.left)
      && (s.right.Node? ==> Find(t, s.right.id) == s.right)
  {
    match t
    case Node(l, j, r) =>
      if j == i {
        if l.Node? { assert l.id in Ids(l); }
        if r.Node? { assert r.id in Ids(r); }
      } else if i in Ids(l) {
        FindChild(l, i);
      } else {
        FindChild(r, i);
      }
  }

  /** The subtree at `i` of the root's subtree is the whole tree. */
  lemma {:induction false} FindRoot(t: Tree)
    requires t.Node?
    ensures Find(t, t.id) == t
  {
  }

  /** Replacing the subtree at `i` by itself changes nothing. */
  lemma {:induction false} ReplaceSelf(t: Tree, i: int)
    ensures Replace(t, i, Find(t, i)) == t
  {
    match t
    case Leaf =>
    case Node(l, j, r) =>
      if j != i {
        if i in Ids(l) { ReplaceSelf(l, i); } else { ReplaceSelf(r, i); }
      }
  }

  /** Replacement swaps the ids of the old subtree for those of the new one. */
  lemma {:induction false} ReplaceIds(t: Tree, i: int, s: Tree)
    requires Unique(t) && i in Ids(t)
    ensures Ids(Replace(t, i, s)) == (Ids(t) - Ids(Find(t, i))) + Ids(s)
  {
    match t
    case Node(l, j, r) =>
      if j != i {
        if i in Ids(l) {
          ReplaceIds(l, i, s);
        } else {
          ReplaceIds(r, i, s);
        }
      }
  }

  /** Replacement by a subtree whose ids are new to the rest of the tree keeps ids unique. */
  lemma {:induction false} ReplaceUnique(t: Tree, i: int, s: Tree)
    requires Unique(t) && Unique(s) && i in Ids(t)
    requires Ids(s) !! (Ids(t) - Ids(Find(t, i)))
    ensures Unique(Replace(t, i, s))
  {
    match t
    case Node(l, j, r) =>
      if j != i {
        if i in Ids(l) {
          ReplaceUnique(l, i, s);
          ReplaceIds(l, i, s);
        } else {
          ReplaceUnique(r, i, s);
          ReplaceIds(r, i, s);
        }
      }
  }

  /** Replacement below the root keeps the root; at the root the new subtree's root takes over. */
  lemma {:induction false} ReplaceRoot(t: Tree, i: int, s: Tree)
    requires i in Ids(t)
    ensures RootId(Replace(t, i, s)) == if i == RootId(t) then RootId(s) else RootId(t)
  {
  }

  /** The depth of a node below `i` is the depth of `i` plus its depth in the subtree at `i`. */
  lemma {:induction false} DepthFind(t: Tree, i: int, y: int)
    requires Unique(t) && i in Ids(t) && y in Ids(Find(t, i))
    ensures y in Ids(t) && Depth(t, y) == Depth(t, i) + Depth(Find(t, i), y)
  {
    match t
    case Node(l, j, r) =>
      if j != i {
        if i in Ids(l) {
          DepthFind(l, i, y);
        } else {
          DepthFind(r, i, y);
        }
      }
  }

  /** A node of the replacing subtree sits as deep as `i` did, plus its depth in that subtree. */
  lemma {:induction false} DepthReplace(t: Tree, i: int, s: Tree, y: int)
    requires Unique(t) && i in Ids(t) && y in Ids(s)
    requires Ids(s) !! (Ids(t) - Ids(Find(t, i)))
    ensures y in Ids(Replace(t, i, s))
    ensures Depth(Replace(t, i, s), y) == Depth(t, i) + Depth(s, y)
  {
    ReplaceIds(t, i, s);
    match t
    case Node(l, j, r) =>
      if j != i {
        if i in Ids(l) {
          DepthReplace(l, i, s, y);
          ReplaceIds(l, i, s);
        } else {
          DepthReplace(r, i, s, y);
          ReplaceIds(r, i, s);
        }
      }
  }

  // ---------------------------------------------------------------------------
  // Rotations and attachment on shapes
  // ---------------------------------------------------------------------------

  /** A rotation at a node keeps the set of nodes and their uniqueness, and moves
      the promoted child into the rotated node's place (the tree's root if `i` was). */
  lemma {:induction false} RotateRightShape(t: Tree, i: int)
    requires Unique(t) && i in Ids(t)
    ensures Ids(RotateRightAt(t, i)) == Ids(t) && Unique(RotateRightAt(t, i))
    ensures RootId(RotateRightAt(t, i)) ==
      if i == RootId(t) && t.left.Node? then t.left.id else RootId(t)
  {
    var s := Find(t, i);
    FindUnique(t, i);
    ReplaceIds(t, i, RotateRightHere(s));
    ReplaceUnique(t, i, RotateRightHere(s));
    ReplaceRoot(t, i, RotateRightHere(s));
  }

  lemma {:induction false} RotateLeftShape(t: Tree, i: int)
    requires Unique(t) && i in Ids(t)
    ensures Ids(RotateLeftAt(t, i)) == Ids(t) && Unique(RotateLeftAt(t, i))
    ensures RootId(RotateLeftAt(t, i)) ==
      if i == RootId(t) && t.right.Node? then t.right.id else RootId(t)
  {
    var s := Find(t, i);
    FindUnique(t, i);
    ReplaceIds(t, i, RotateLeftHere(s));
    ReplaceUnique(t, i, RotateLeftHere(s));
    ReplaceRoot(t, i, RotateLeftHere(s));
  }

  /** A rotation at a node without the child it would promote changes nothing. */
  lemma {:induction false} RotateRightNoop(t: Tree, i: int)
    requires Find(t, i).Node? ==> Find(t, i).left.Leaf?
    ensures RotateRightAt(t, i) == t
  {
    ReplaceSelf(t, i);
  }

  lemma {:induction false} RotateLeftNoop(t: Tree, i: int)
    requires Find(t, i).Node? ==> Find(t, i).right.Leaf?
    ensures RotateLeftAt(t, i) == t
  {
    ReplaceSelf(t, i);
  }

  /** A right rotation at `i` lifts the promoted left child, and every node of
      that child's own left subtree, by exactly one level. */
  lemma {:induction false} RotateRightDepth(t: Tree, i: int, y: int)
    requires Unique(t) && i in Ids(t) && Find(t, i).left.Node?
    requires y == Find(t, i).left.id || y in Ids(Find(t, i).left.left)
    ensures y in Ids(t) && y in Ids(RotateRightAt(t, i))
    ensures Depth(RotateRightAt(t, i), y) + 1 == Depth(t, y)
  {
    var s := Find(t, i);
    FindUnique(t, i);
    var s' := RotateRightHere(s);
    assert Ids(s') == Ids(s);
    assert y in Ids(s);
    DepthFind(t, i, y);
    DepthReplace(t, i, s', y);
  }

  /** A left rotation at `i` lifts the promoted right child, and every node of
      that child's own right subtree, by exactly one level. */
  lemma {:induction false} RotateLeftDepth(t: Tree, i: int, y: int)
    requires Unique(t) && i in Ids(t) && Find(t, i).right.Node?
    requires y == Find(t, i).right.id || y in Ids(Find(t, i).right.right)
    ensures y in Ids(t) && y in Ids(RotateLeftAt(t, i))
    ensures Depth(RotateLeftAt(t, i), y) + 1 == Depth(t, y)
  {
    var s := Find(t, i);
    FindUnique(t, i);
    var s' := RotateLeftHere(s);
    assert Ids(s') == Ids(s);
    assert y in Ids(s);
    DepthFind(t, i, y);
    DepthReplace(t, i, s', y);
  }

  /** Filling an empty slot with a fresh index adds exactly that index and keeps the root. */
  lemma {:induction false} AttachShape(t: Tree, slot: Slot, n: int)
    requires Unique(t) && slot.parent in Ids(t) && n !in Ids(t)
    requires if slot.left then Find(t, slot.parent).left.Leaf? else Find(t, slot.parent).right.Leaf?
    ensures Ids(Attach(t, slot, n)) == Ids(t) + {n}
    ensures Unique(Attach(t, slot, n))
    ensures RootId(Attach(t, slot, n)) == RootId(t)
  {
    var s := Find(t, slot.parent);
    FindUnique(t, slot.parent);
    var s' := AttachHere(s, slot.left, n);
    assert Ids(s') == Ids(s) + {n};
    ReplaceIds(t, slot.parent, s');
    ReplaceUnique(t, slot.parent, s');
    ReplaceRoot(t, slot.parent, s');
  }

  /** Filling a slot inside the left subtree only changes the left subtree. */
  lemma {:induction false} AttachLeftStep(t: Tree, slot: Slot, n: int)
    requires t.Node? && Unique(t) && slot.parent in Ids(t.left)
    ensures Attach(t, slot, n) == Node(Attach(t.left, slot, n), t.id, t.right)
  {
    assert slot.parent != t.id;
  }

  /** Filling a slot inside the right subtree only changes the right subtree. */
  lemma {:induction false} AttachRightStep(t: Tree, slot: Slot, n: int)
    requires t.Node? && Unique(t) && slot.parent in Ids(t.right)
    ensures Attach(t, slot, n) == Node(t.left, t.id, Attach(t.right, slot, n))
  {
    assert slot.parent != t.id && slot.parent !in Ids(t.left);
  }
}
