/** The node arena of a splay tree: node `i` holds the indices of its parent,
    left child and right child (`NoNode` where the Python has `None`). This
    module states when those links spell out a given shape, and how the link
    updates of a rotation and of an insertion keep them consistent. */
module Arena {
  import opened Shape

  /** The three links of one node: `parent`, `left_node` and `right_node`. */
  datatype Links = Links(parent: int, left: int, right: int)

  /** The links of the nodes of `t` spell out `t`: every node's children are the
      roots of its subtrees, and its parent is the node above it (`p` for the
      root of `t`). */
  ghost predicate Linked(ls: seq<Links>, t: Tree, p: int) {
    match t
    case Leaf => true
    case Node(l, i, r) =>
      0 <= i < |ls| && ls[i] == Links(p, RootId(l), RootId(r)) && Linked(ls, l, i) && Linked(ls, r, i)
  }

  /** `ls` and `ls'` agree on every node of `s`. */
  ghost predicate SameOn(ls: seq<Links>, ls': seq<Links>, s: set<int>) {
    forall j :: j in s ==> 0 <= j < |ls| && 0 <= j < |ls'| && ls'[j] == ls[j]
  }

  /** The links `lk` with child `c` in the slot that held `i`: the left slot if
      it holds `i`, the right slot otherwise. */
  function SwapChild(lk: Links, i: int, c: int): Links {
    if lk.left == i then lk.(left := c) else lk.(right := c)
  }

  /** In `ls'`, the child slot of node `q` that held `i` in `ls` holds `c`. */
  ghost predicate ChildReplaced(ls: seq<Links>, ls': seq<Links>, q: int, i: int, c: int) {
    0 <= q < |ls| && 0 <= q < |ls'| && ls'[q] == SwapChild(ls[q], i, c)
  }

  /** `ls'` is `ls` after the link moves of a right rotation at node `i`: its
      left child `l` takes its place under its parent `p`, `l`'s right subtree
      `b` becomes `i`'s left subtree, and `i` becomes `l`'s right child. No other
      node's links change. */
  ghost predicate RightRotation(ls: seq<Links>, ls': seq<Links>, i: int) {
    0 <= i < |ls| && |ls'| == |ls| &&
    var l := ls[i].left;
    var p := ls[i].parent;
    0 <= l < |ls| &&
    var b := ls[l].right;
    && (b == NoNode || 0 <= b < |ls|)
    && ls'[i] == Links(l, b, ls[i].right)
    && ls'[l] == Links(p, ls[l].left, i)
    && (b != NoNode ==> ls'[b] == ls[b].(parent := i))
    && (p != NoNode ==> ChildReplaced(ls, ls', p, i, l))
    && forall j :: 0 <= j < |ls| && j != i && j != l && j != b && j != p ==> ls'[j] == ls[j]
  }

  /** The mirror image of `RightRotation`: node `i`'s right child `r` is promoted. */
  ghost predicate LeftRotation(ls: seq<Links>, ls': seq<Links>, i: int) {
    0 <= i < |ls| && |ls'| == |ls| &&
    var r := ls[i].right;
    var p := ls[i].parent;
    0 <= r < |ls| &&
    var b := ls[r].left;
    && (b == NoNode || 0 <= b < |ls|)
    && ls'[i] == Links(r, ls[i].left, b)
    && ls'[r] == Links(p, i, ls[r].right)
    && (b != NoNode ==> ls'[b] == ls[b].(parent := i))
    && (p != NoNode ==> ChildReplaced(ls, ls', p, i, r))
    && forall j :: 0 <= j < |ls| && j != i && j != r && j != b && j != p ==> ls'[j] == ls[j]
  }

  /** The links after node `c` becomes node `i`'s left child (none when `c`
      is `NoNode`) and points back at `i` as its parent. */
  function WithLeft(ls: seq<Links>, i: int, c: int): seq<Links>
    requires 0 <= i < |ls| && (c == NoNode || 0 <= c < |ls|)
  {
    var ls1 := ls[i := ls[i].(left := c)];
    if c == NoNode then ls1 else ls1[c := ls1[c].(parent := i)]
  }

  /** The links after node `c` becomes node `i`'s right child (none when `c`
      is `NoNode`) and points back at `i` as its parent. */
  function WithRight(ls: seq<Links>, i: int, c: int): seq<Links>
    requires 0 <= i < |ls| && (c == NoNode || 0 <= c < |ls|)
  {
    var ls1 := ls[i := ls[i].(right := c)];
    if c == NoNode then ls1 else ls1[c := ls1[c].(parent := i)]
  }

  /** The links after node `c` takes node `i`'s place below `i`'s parent: `c`
      points up at that parent, and the parent's slot that held `i` holds `c`. */
  function TakenPlace(ls: seq<Links>, i: int, c: int): seq<Links>
    requires 0 <= i < |ls| && 0 <= c < |ls|
    requires ls[i].parent == NoNode || 0 <= ls[i].parent < |ls|
  {
    var p := ls[i].parent;
    var ls1 := ls[c := ls[c].(parent := p)];
    if p == NoNode then ls1 else ls1[p := SwapChild(ls1[p], i, c)]
  }

  /** The four nodes a right rotation at `i` touches are distinct: `i`, its
      left child `l`, `l`'s right child (if any) and `i`'s parent (if any). */
  ghost predicate RightRotatable(ls: seq<Links>, i: int) {
    0 <= i < |ls| &&
    var l, p := ls[i].left, ls[i].parent;
    && 0 <= l < |ls| && l != i && p != i && p != l
    && (p == NoNode || 0 <= p < |ls|)
    && var b := ls[l].right;
       b == NoNode || (0 <= b < |ls| && b != i && b != l && b != p)
  }

  /** The four nodes a left rotation at `i` touches are distinct: `i`, its
      right child `r`, `r`'s left child (if any) and `i`'s parent (if any). */
  ghost predicate LeftRotatable(ls: seq<Links>, i: int) {
    0 <= i < |ls| &&
    var r, p := ls[i].right, ls[i].parent;
    && 0 <= r < |ls| && r != i && p != i && p != r
    && (p == NoNode || 0 <= p < |ls|)
    && var b := ls[r].left;
       b == NoNode || (0 <= b < |ls| && b != i && b != r && b != p)
  }

  /** The links after a new node, the next index of the arena, fills `slot`:
      the slot's node points down to it and it points up to that node. */
  function Filled(ls: seq<Links>, slot: Slot): seq<Links>
    requires 0 <= slot.parent < |ls|
  {
    var q := ls[slot.parent];
    var n := |ls|;
    ls[slot.parent := if slot.left then q.(left := n) else q.(right := n)] + [Links(slot.parent, NoNode, NoNode)]
  }

  // ---------------------------------------------------------------------------
  // Link consistency
  // ---------------------------------------------------------------------------

  /** Linked nodes are indices of the arena. */
  lemma {:induction false} LinkedInRange(ls: seq<Links>, t: Tree, p: int)
    requires Linked(ls, t, p)
    ensures forall j :: j in Ids(t) ==> 0 <= j < |ls|
  {
    match t
    case Leaf =>
    case Node(l, i, r) =>
      LinkedInRange(ls, l, i);
      LinkedInRange(ls, r, i);
  }

  /** Links that nothing changed stay consistent. */
  lemma {:induction false} LinkedFrame(ls: seq<Links>, ls': seq<Links>, t: Tree, p: int)
    requires Linked(ls, t, p) && SameOn(ls, ls', Ids(t))
    ensures Linked(ls', t, p)
  {
    match t
    case Leaf =>
    case Node(l, i, r) =>
      LinkedFrame(ls, ls', l, i);
      LinkedFrame(ls, ls', r, i);
  }

  /** Link consistency, node by node: the subtree at `i` is linked to `i`'s
      parent; that parent lies outside the subtree; it is `p` exactly when `i`
      is the root, and otherwise a node of the tree whose left or right child
      is `i`. */
  lemma {:induction false} LinkedFind(ls: seq<Links>, t: Tree, p: int, i: int)
    requires Unique(t) && Linked(ls, t, p) && p !in Ids(t) && i in Ids(t)
    ensures 0 <= i < |ls|
    ensures Linked(ls, Find(t, i), ls[i].parent)
    ensures ls[i].parent !in Ids(Find(t, i))
    ensures i == RootId(t) ==> ls[i].parent == p
    ensures i != RootId(t) ==>
      var q := ls[i].parent;
      q in Ids(t) && 0 <= q < |ls| && (ls[q].left == i || ls[q].right == i)
  {
    match t
    case Node(l, j, r) =>
      if j != i {
        if i in Ids(l) {
          LinkedFind(ls, l, j, i);
        } else {
          LinkedFind(ls, r, j, i);
        }
      }
  }

  /** The one link lemma that rotations and insertion share: replacing the
      subtree at `i` by a subtree `s` that is linked to `i`'s parent, with that
      parent's child slot pointing at `s` and no other node of the tree changed,
      gives links consistent with the new shape. */
  lemma {:induction false} ReplaceLinked(ls: seq<Links>, ls': seq<Links>, t: Tree, p: int, i: int, s: Tree)
    requires Unique(t) && Linked(ls, t, p) && p !in Ids(t) && i in Ids(t) && 0 <= i < |ls|
    requires Linked(ls', s, ls[i].parent)
    requires SameOn(ls, ls', Ids(t) - Ids(Find(t, i)) - {ls[i].parent})
    requires i != RootId(t) ==> ChildReplaced(ls, ls', ls[i].parent, i, RootId(s))
    ensures Linked(ls', Replace(t, i, s), p)
    decreases t, 1
  {
    LinkedFind(ls, t, p, i);
    if t.id != i {
      if i in Ids(t.left) {
        ReplaceLinkedLeft(ls, ls', t, p, i, s);
      } else {
        ReplaceLinkedRight(ls, ls', t, p, i, s);
      }
    }
  }

  /** The case of `ReplaceLinked` where node `i` lies in the left subtree. */
  lemma {:induction false} ReplaceLinkedLeft(ls: seq<Links>, ls': seq<Links>, t: Tree, p: int, i: int, s: Tree)
    requires Unique(t) && Linked(ls, t, p) && p !in Ids(t) && 0 <= i < |ls|
    requires t.Node? && t.id != i && i in Ids(t.left)
    requires Linked(ls', s, ls[i].parent)
    requires SameOn(ls, ls', Ids(t) - Ids(Find(t, i)) - {ls[i].parent})
    requires ChildReplaced(ls, ls', ls[i].parent, i, RootId(s))
    ensures Linked(ls', Replace(t, i, s), p)
    decreases t, 0
  {
    var l, j, r := t.left, t.id, t.right;
    var q := ls[i].parent;
    var rest := Ids(t) - Ids(Find(t, i)) - {q};
    LinkedFind(ls, l, j, i);
    assert Find(t, i) == Find(l, i);
    assert Ids(l) - Ids(Find(l, i)) - {q} <= rest;
    ReplaceLinked(ls, ls', l, j, i, s);
    assert Ids(r) <= rest;
    LinkedFrame(ls, ls', r, j);
    ReplaceRoot(l, i, s);
    if i != RootId(l) {
      assert j in rest;
    }
  }

  /** The case of `ReplaceLinked` where node `i` lies in the right subtree. */
  lemma {:induction false} ReplaceLinkedRight(ls: seq<Links>, ls': seq<Links>, t: Tree, p: int, i: int, s: Tree)
    requires Unique(t) && Linked(ls, t, p) && p !in Ids(t) && 0 <= i < |ls|
    requires t.Node? && t.id != i && i !in Ids(t.left) && i in Ids(t.right)
    requires Linked(ls', s, ls[i].parent)
    requires SameOn(ls, ls', Ids(t) - Ids(Find(t, i)) - {ls[i].parent})
    requires ChildReplaced(ls, ls', ls[i].parent, i, RootId(s))
    ensures Linked(ls', Replace(t, i, s), p)
    decreases t, 0
  {
    var l, j, r := t.left, t.id, t.right;
    var q := ls[i].parent;
    var rest := Ids(t) - Ids(Find(t, i)) - {q};
    LinkedFind(ls, r, j, i);
    assert Find(t, i) == Find(r, i);
    assert Ids(r) - Ids(Find(r, i)) - {q} <= rest;
    ReplaceLinked(ls, ls', r, j, i, s);
    assert Ids(l) <= rest;
    LinkedFrame(ls, ls', l, j);
    ReplaceRoot(r, i, s);
    if i != RootId(r) {
      assert j in rest;
    }
  }

  // ---------------------------------------------------------------------------
  // Rotations
  // ---------------------------------------------------------------------------

  /** The link moves of a right rotation, applied at the root of a subtree,
      spell out the rotated subtree. */
  lemma {:induction false} RotateRightHereLinked(ls: seq<Links>, ls': seq<Links>, s: Tree, p: int)
    requires s.Node? && s.left.Node? && Unique(s) && Linked(ls, s, p) && p !in Ids(s)
    requires RightRotation(ls, ls', s.id)
    ensures Linked(ls', RotateRightHere(s), p)
  {
    var a, l, b, i, c := s.left.left, s.left.id, s.left.right, s.id, s.right;
    LinkedInRange(ls, s, p);
    assert ls[i] == Links(p, l, RootId(c));
    assert ls[l] == Links(i, RootId(a), RootId(b));
    LinkedFrame(ls, ls', a, l);
    LinkedFrame(ls, ls', c, i);
    if b.Node? {
      assert Unique(s.left) && Unique(s.right) && Unique(b);
      assert Linked(ls, s.left, i) && Linked(ls, s.right, i);
      assert Linked(ls, b, l);
      forall j | j in Ids(b.left) + Ids(b.right) ensures 0 <= j < |ls| && 0 <= j < |ls'| && ls'[j] == ls[j] {
        assert j in Ids(b) && j != b.id;
        assert j in Ids(s.left) && j != l;
      }
      LinkedFrame(ls, ls', b.left, b.id);
      LinkedFrame(ls, ls', b.right, b.id);
    }
  }

  /** The link moves of a left rotation, applied at the root of a subtree,
      spell out the rotated subtree. */
  lemma {:induction false} RotateLeftHereLinked(ls: seq<Links>, ls': seq<Links>, s: Tree, p: int)
    requires s.Node? && s.right.Node? && Unique(s) && Linked(ls, s, p) && p !in Ids(s)
    requires LeftRotation(ls, ls', s.id)
    ensures Linked(ls', RotateLeftHere(s), p)
  {
    var a, i, b, r, c := s.left, s.id, s.right.left, s.right.id, s.right.right;
    LinkedInRange(ls, s, p);
    assert ls[i] == Links(p, RootId(a), r);
    assert ls[r] == Links(i, RootId(b), RootId(c));
    LinkedFrame(ls, ls', a, i);
    LinkedFrame(ls, ls', c, r);
    if b.Node? {
      assert Unique(s.left) && Unique(s.right) && Unique(b);
      assert Linked(ls, s.left, i) && Linked(ls, s.right, i);
      assert Linked(ls, b, r);
      forall j | j in Ids(b.left) + Ids(b.right) ensures 0 <= j < |ls| && 0 <= j < |ls'| && ls'[j] == ls[j] {
        assert j in Ids(b) && j != b.id;
        assert j in Ids(s.right) && j != r;
      }
      LinkedFrame(ls, ls', b.left, b.id);
      LinkedFrame(ls, ls', b.right, b.id);
    }
  }

  /** The three writes of `_rotate_right` (`Lru_vs_SplayTree.py`, lines 93-106), in
      order, make exactly the link moves of a right rotation. */
  lemma {:induction false} RightRotationWrites(ls: seq<Links>, i: int)
    requires RightRotatable(ls, i)
    ensures var l := ls[i].left;
      var ls1 := WithLeft(ls, i, ls[l].right);
      && ls1[i].parent == ls[i].parent && |ls1| == |ls|
      && var ls2 := TakenPlace(ls1, i, l);
         && |ls2| == |ls|
         && RightRotation(ls, WithRight(ls2, l, i), i)
  {
  }

  /** The three writes of `_rotate_left` (`Lru_vs_SplayTree.py`, lines 114-127), in
      order, make exactly the link moves of a left rotation. */
  lemma {:induction false} LeftRotationWrites(ls: seq<Links>, i: int)
    requires LeftRotatable(ls, i)
    ensures var r := ls[i].right;
      var ls1 := WithRight(ls, i, ls[r].left);
      && ls1[i].parent == ls[i].parent && |ls1| == |ls|
      && var ls2 := TakenPlace(ls1, i, r);
         && |ls2| == |ls|
         && LeftRotation(ls, WithLeft(ls2, r, i), i)
  {
  }

  /** A right rotation's link moves keep the links consistent with the rotated shape. */
  lemma {:induction false} LinkedRotateRight(ls: seq<Links>, ls': seq<Links>, t: Tree, p: int, i: int)
    requires Unique(t) && Linked(ls, t, p) && p !in Ids(t) && i in Ids(t)
    requires Find(t, i).left.Node? && RightRotation(ls, ls', i)
    ensures Linked(ls', RotateRightAt(t, i), p)
  {
    var s := Find(t, i);
    LinkedFind(ls, t, p, i);
    LinkedInRange(ls, t, p);
    FindUnique(t, i);
    var q := ls[i].parent;
    RotateRightHereLinked(ls, ls', s, q);
    assert ls[i].left == s.left.id;
    assert Linked(ls, s.left, i);
    assert ls[s.left.id].right == RootId(s.left.right);
    forall j | j in Ids(t) - Ids(s) - {q} ensures 0 <= j < |ls| && 0 <= j < |ls'| && ls'[j] == ls[j] {
      assert j != i && j != s.left.id && j != RootId(s.left.right);
    }
    ReplaceLinked(ls, ls', t, p, i, RotateRightHere(s));
  }

  /** A left rotation's link moves keep the links consistent with the rotated shape. */
  lemma {:induction false} LinkedRotateLeft(ls: seq<Links>, ls': seq<Links>, t: Tree, p: int, i: int)
    requires Unique(t) && Linked(ls, t, p) && p !in Ids(t) && i in Ids(t)
    requires Find(t, i).right.Node? && LeftRotation(ls, ls', i)
    ensures Linked(ls', RotateLeftAt(t, i), p)
  {
    var s := Find(t, i);
    LinkedFind(ls, t, p, i);
    LinkedInRange(ls, t, p);
    FindUnique(t, i);
    var q := ls[i].parent;
    RotateLeftHereLinked(ls, ls', s, q);
    assert ls[i].right == s.right.id;
    assert Linked(ls, s.right, i);
    assert ls[s.right.id].left == RootId(s.right.left);
    forall j | j in Ids(t) - Ids(s) - {q} ensures 0 <= j < |ls| && 0 <= j < |ls'| && ls'[j] == ls[j] {
      assert j != i && j != s.right.id && j != RootId(s.right.left);
    }
    ReplaceLinked(ls, ls', t, p, i, RotateLeftHere(s));
  }

  // ---------------------------------------------------------------------------
  // Insertion
  // ---------------------------------------------------------------------------

  /** Filling an empty slot with the arena's next node keeps the links
      consistent with the shape that has the new leaf in that slot. */
  lemma {:induction false} LinkedAttach(ls: seq<Links>, t: Tree, p: int, slot: Slot)
    requires Unique(t) && Linked(ls, t, p) && p !in Ids(t) && slot.parent in Ids(t)
    requires 0 <= slot.parent < |ls|
    requires if slot.left then ls[slot.parent].left == NoNode else ls[slot.parent].right == NoNode
    ensures Linked(Filled(ls, slot), Attach(t, slot, |ls|), p)
  {
    var q, n := slot.parent, |ls|;
    var ls' := Filled(ls, slot);
    var s := Find(t, q);
    LinkedFind(ls, t, p, q);
    LinkedInRange(ls, t, p);
    var up := ls[q].parent;
    var s' := AttachHere(s, slot.left, n);
    assert n !in Ids(t);
    assert Linked(ls', Node(Leaf, n, Leaf), q);
    FindUnique(t, q);
    forall j | j in Ids(s.left) + Ids(s.right) ensures 0 <= j < |ls| && 0 <= j < |ls'| && ls'[j] == ls[j] {
      assert j in Ids(t) && j != q;
    }
    if slot.left {
      LinkedFrame(ls, ls', s.right, q);
    } else {
      LinkedFrame(ls, ls', s.left, q);
    }
    assert Linked(ls', s', up);
    if q != RootId(t) {
      assert ls'[up] == ls[up];
    }
    ReplaceLinked(ls, ls', t, p, q, s');
  }
}
