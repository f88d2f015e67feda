/** The splay tree of `Lru_vs_SplayTree.py`: nodes that hold a (key, value)
    pair and links to their parent and children, insertion by descent from the
    root, and a search that splays the node it finds to the root by zig,
    zig-zig and zig-zag rotations. */
module SplayTrees {
  import opened Wrappers
  import opened Shape
  import opened InOrder
  import opened Arena

  // ---------------------------------------------------------------------------
  // The tree's state, as values
  // ---------------------------------------------------------------------------

  /** The node arena, the links and the root pointer describe the binary tree
      `shape`: its nodes are exactly the arena's indices, each once, the root
      pointer names its root, and every node's links name its parent and
      children in `shape`. */
  ghost predicate WiredState<V>(data: seq<(int, V)>, links: seq<Links>, root: int, shape: Tree) {
    && |links| == |data|
    && Unique(shape)
    && InRange(shape, |data|)
    && (forall j :: j in Ids(shape) <==> 0 <= j < |data|)
    && root == RootId(shape)
    && Linked(links, shape, NoNode)
  }

  /** A well-formed tree whose keys, read in order, never decrease: the
      ordering that insertion builds and that search relies on. */
  ghost predicate ValidState<V>(data: seq<(int, V)>, links: seq<Links>, root: int, shape: Tree) {
    WiredState(data, links, root, shape) && Sorted(Pairs(data, shape))
  }

  /** What the child links of node `i` say about the shape: they name the
      roots of its subtrees, `NoNode` exactly for an empty one. */
  lemma {:induction false} NodeChildren<V>(data: seq<(int, V)>, links: seq<Links>, root: int, shape: Tree, i: int)
    requires WiredState(data, links, root, shape) && i in Ids(shape)
    ensures 0 <= i < |data| && 0 <= i < |links|
    ensures var s := Find(shape, i);
      && s.Node? && s.id == i
      && links[i].left == RootId(s.left) && links[i].right == RootId(s.right)
      && (links[i].left == NoNode <==> s.left.Leaf?)
      && (links[i].right == NoNode <==> s.right.Leaf?)
      && (s.left.Node? ==> s.left.id in Ids(shape) && Find(shape, s.left.id) == s.left)
      && (s.right.Node? ==> s.right.id in Ids(shape) && Find(shape, s.right.id) == s.right)
  {
    var s := Find(shape, i);
    LinkedFind(links, shape, NoNode, i);
    FindChild(shape, i);
    assert Linked(links, s, links[i].parent);
    if s.left.Node? { assert s.left.id in Ids(s); }
    if s.right.Node? { assert s.right.id in Ids(s); }
  }

  /** What the parent link of node `i` says about the shape: it is `NoNode`
      exactly when `i` is the root; otherwise it names a node one level closer
      to the root that has `i` as its left or right child. */
  lemma {:induction false} NodeParent<V>(data: seq<(int, V)>, links: seq<Links>, root: int, shape: Tree, i: int)
    requires WiredState(data, links, root, shape) && i in Ids(shape)
    ensures 0 <= i < |links|
    ensures links[i].parent == NoNode <==> i == root
    ensures links[i].parent != NoNode ==>
      var p := links[i].parent;
      && p in Ids(shape) && 0 <= p < |links|
      && (links[p].left == i || links[p].right == i)
      && Depth(shape, i) == Depth(shape, p) + 1
  {
    LinkedFind(links, shape, NoNode, i);
    var p := links[i].parent;
    if p != NoNode {
      NodeChildren(data, links, root, shape, p);
      var sp := Find(shape, p);
      FindUnique(shape, p);
      if links[p].left == i {
        assert sp.left.id == i && i in Ids(sp.left) && i != p;
        assert Depth(sp, i) == 1 + Depth(sp.left, i) == 1;
      } else {
        assert sp.right.id == i && i in Ids(sp.right) && i != p && i !in Ids(sp.left);
        assert Depth(sp, i) == 1 + Depth(sp.right, i) == 1;
      }
      DepthFind(shape, p, i);
    }
  }

  /** A new pair fills the empty slot that descent by its key reaches: the
      tree stays well-formed and ordered, and its in-order pairs are the old
      ones with the new pair inserted after every pair with a key not greater
      than its own. */
  lemma {:induction false} AttachValid<V>(data: seq<(int, V)>, links: seq<Links>, root: int, shape: Tree, key: int, v: V)
    requires ValidState(data, links, root, shape) && shape.Node?
    ensures var slot := EmptySlot(data, shape, key);
      && ValidState(data + [(key, v)], Filled(links, slot), root, Attach(shape, slot, |data|))
      && Pairs(data + [(key, v)], Attach(shape, slot, |data|)) == InsertSorted(Pairs(data, shape), key, v)
  {
    var slot := EmptySlot(data, shape, key);
    var n := |data|;
    NodeChildren(data, links, root, shape, slot.parent);
    AttachShape(shape, slot, n);
    LinkedAttach(links, shape, NoNode, slot);
    PairsAttach(data, shape, key, v);
    InsertSortedSorted(Pairs(data, shape), key, v);
  }

  /** A tree of one node, the arena's first, holding a single pair. */
  lemma {:induction false} SingletonValid<V>(key: int, v: V)
    ensures ValidState([(key, v)], [Links(NoNode, NoNode, NoNode)], 0, Node(Leaf, 0, Leaf))
    ensures Pairs([(key, v)], Node(Leaf, 0, Leaf)) == [(key, v)]
  {
    var t := Node(Leaf, 0, Leaf);
    assert Ids(t) == {0};
    assert InRange(t, 1);
    assert Pairs([(key, v)], t) == [] + [(key, v)] + [];
  }

  /** The link moves of a right rotation at a node with a left child keep the
      tree well-formed and ordered, with the same in-order pairs; the promoted
      child becomes the root when the rotated node was the root. */
  lemma {:induction false} RotateRightValid<V>(data: seq<(int, V)>, links: seq<Links>, root: int, shape: Tree, i: int,
                            links': seq<Links>, root': int)
    requires ValidState(data, links, root, shape) && i in Ids(shape) && Find(shape, i).left.Node?
    requires RightRotation(links, links', i)
    requires root' == if links[i].parent == NoNode then links[i].left else root
    ensures ValidState(data, links', root', RotateRightAt(shape, i))
    ensures Pairs(data, RotateRightAt(shape, i)) == Pairs(data, shape)
  {
    NodeParent(data, links, root, shape, i);
    NodeChildren(data, links, root, shape, i);
    RotateRightShape(shape, i);
    LinkedRotateRight(links, links', shape, NoNode, i);
    PairsRotateRight(data, shape, i);
  }

  /** The mirror image of `RotateRightValid`. */
  lemma {:induction false} RotateLeftValid<V>(data: seq<(int, V)>, links: seq<Links>, root: int, shape: Tree, i: int,
                           links': seq<Links>, root': int)
    requires ValidState(data, links, root, shape) && i in Ids(shape) && Find(shape, i).right.Node?
    requires LeftRotation(links, links', i)
    requires root' == if links[i].parent == NoNode then links[i].right else root
    ensures ValidState(data, links', root', RotateLeftAt(shape, i))
    ensures Pairs(data, RotateLeftAt(shape, i)) == Pairs(data, shape)
  {
    NodeParent(data, links, root, shape, i);
    NodeChildren(data, links, root, shape, i);
    RotateLeftShape(shape, i);
    LinkedRotateLeft(links, links', shape, NoNode, i);
    PairsRotateLeft(data, shape, i);
  }

  /** The nodes a right rotation at `i` touches are distinct arena entries:
      `i`, its left child, that child's right child and `i`'s parent. */
  lemma {:induction false} RotateRightReady<V>(data: seq<(int, V)>, links: seq<Links>, root: int, shape: Tree, i: int)
    requires ValidState(data, links, root, shape) && i in Ids(shape)
    requires 0 <= i < |links| && links[i].left != NoNode
    ensures Find(shape, i).left.Node? && RightRotatable(links, i)
  {
    NodeChildren(data, links, root, shape, i);
    var l := links[i].left;
    NodeChildren(data, links, root, shape, l);
    NodeParent(data, links, root, shape, i);
    LinkedFind(links, shape, NoNode, i);
    FindUnique(shape, i);
    var b := links[l].right;
    assert b != NoNode ==> b in Ids(Find(shape, l)) && b in Ids(Find(shape, i));
  }

  /** The nodes a left rotation at `i` touches are distinct arena entries:
      `i`, its right child, that child's left child and `i`'s parent. */
  lemma {:induction false} RotateLeftReady<V>(data: seq<(int, V)>, links: seq<Links>, root: int, shape: Tree, i: int)
    requires ValidState(data, links, root, shape) && i in Ids(shape)
    requires 0 <= i < |links| && links[i].right != NoNode
    ensures Find(shape, i).right.Node? && LeftRotatable(links, i)
  {
    NodeChildren(data, links, root, shape, i);
    var r := links[i].right;
    NodeChildren(data, links, root, shape, r);
    NodeParent(data, links, root, shape, i);
    LinkedFind(links, shape, NoNode, i);
    FindUnique(shape, i);
    var b := links[r].left;
    assert b != NoNode ==> b in Ids(Find(shape, r)) && b in Ids(Find(shape, i));
  }

  /** A grandchild `x` (child of `p`, itself a child of `g`) is none of the
      other nodes a rotation at `g` touches: not `g`, not `g`'s parent, and
      not `p`'s other child. */
  lemma {:induction false} GrandchildApart<V>(data: seq<(int, V)>, links: seq<Links>, root: int, shape: Tree, x: int, p: int, g: int)
    requires WiredState(data, links, root, shape) && x in Ids(shape) && p in Ids(shape) && g in Ids(shape)
    requires links[x].parent == p && links[p].parent == g
    ensures x != g && x != p && x != links[g].parent
    ensures x == links[p].left ==> x != links[p].right
    ensures x == links[p].right ==> x != links[p].left
  {
    NodeParent(data, links, root, shape, x);
    NodeParent(data, links, root, shape, p);
    NodeParent(data, links, root, shape, g);
    NodeChildren(data, links, root, shape, p);
    FindUnique(shape, p);
  }

  /** Where `_insert_node` started at node `cur` puts a new pair with key `key`. */
  ghost function SlotBelow<V>(data: seq<(int, V)>, shape: Tree, cur: int, key: int): Slot
    requires InRange(shape, |data|) && cur in Ids(shape)
  {
    PairsFind(data, shape, cur);
    EmptySlot(data, Find(shape, cur), key)
  }

  // ---------------------------------------------------------------------------
  // The tree object
  // ---------------------------------------------------------------------------

  /** A splay tree. Each `Node` of the Python is an entry `i` of the arena:
      `data[i]` is its (key, value) pair and `links[i]` its parent, left and
      right pointers; `root` is the root pointer (`NoNode` for an empty tree). The
      ghost `shape` is the binary tree the pointers describe. */
  class SplayTree<V> {
    var data: seq<(int, V)>
    var links: seq<Links>
    var root: int
    ghost var shape: Tree

    ghost predicate Valid()
      reads this
    {
      ValidState(data, links, root, shape)
    }

    /** The (key, value) pairs of the tree in order. */
    ghost function Entries(): seq<(int, V)>
      reads this
      requires Valid()
    {
      Pairs(data, shape)
    }

    /** An empty tree. */
    constructor()
      ensures Valid() && Entries() == []
      ensures data == [] && links == [] && root == NoNode
    {
      data := [];
      links := [];
      root := NoNode;
      shape := Leaf;
    }

    /** Node `c` becomes node `i`'s left child (none when `c` is `NoNode`),
        and its parent link points back at `i`. */
    method SetLeft(i: int, c: int)
      requires 0 <= i < |links| && c != i && (c == NoNode || 0 <= c < |links|)
      modifies this
      ensures data == old(data) && shape == old(shape) && root == old(root)
      ensures links == WithLeft(old(links), i, c)
    {
      links := links[i := links[i].(left := c)];
      if c != NoNode {
        links := links[c := links[c].(parent := i)];
      }
    }

    /** Node `c` becomes node `i`'s right child (none when `c` is `NoNode`),
        and its parent link points back at `i`. */
    method SetRight(i: int, c: int)
      requires 0 <= i < |links| && c != i && (c == NoNode || 0 <= c < |links|)
      modifies this
      ensures data == old(data) && shape == old(shape) && root == old(root)
      ensures links == WithRight(old(links), i, c)
    {
      links := links[i := links[i].(right := c)];
      if c != NoNode {
        links := links[c := links[c].(parent := i)];
      }
    }

    /** `c` takes node `i`'s place: its parent becomes `i`'s parent, and that
        parent's child slot holding `i`, or the root pointer when `i` has no
        parent, now points at `c`. This is the middle of both rotations. */
    method TakePlace(i: int, c: int)
      requires 0 <= i < |links| && 0 <= c < |links|
      requires links[i].parent == NoNode || 0 <= links[i].parent < |links|
      modifies this
      ensures data == old(data) && shape == old(shape)
      ensures links == TakenPlace(old(links), i, c)
      ensures root == if old(links[i].parent) == NoNode then c else old(root)
    {
      var p := links[i].parent;
      links := links[c := links[c].(parent := p)];
      if p == NoNode {
        root := c;
      } else if i == links[p].left {
        links := links[p := links[p].(left := c)];
      } else {
        links := links[p := links[p].(right := c)];
      }
    }

    /** `_rotate_right`: node `i`'s left child takes its place, and `i` becomes
        that child's right child; nothing happens when `i` has no left child. */
    method RotateRight(i: int)
      requires Valid() && i in Ids(shape)
      modifies this
      ensures Valid() && data == old(data) && Entries() == old(Entries())
      ensures shape == RotateRightAt(old(shape), i)
      ensures old(links[i].left) == NoNode ==> links == old(links) && root == old(root)
      ensures old(links[i].left) != NoNode ==> RightRotation(old(links), links, i)
      ensures root == if old(links[i].parent) == NoNode && old(links[i].left) != NoNode
                      then old(links[i].left) else old(root)
    {
      var leftChild := links[i].left;
      if leftChild == NoNode {
        NodeChildren(data, links, root, shape, i);
        RotateRightNoop(shape, i);
        return;
      }
      ghost var ls, t := links, shape;
      RotateRightReady(data, links, root, shape, i);

      SetLeft(i, links[leftChild].right);
      TakePlace(i, leftChild);
      SetRight(leftChild, i);

      RightRotationWrites(ls, i);
      RotateRightValid(data, ls, old(root), t, i, links, root);
      shape := RotateRightAt(t, i);
    }

    /** `_rotate_left`: node `i`'s right child takes its place, and `i` becomes
        that child's left child; nothing happens when `i` has no right child. */
    method RotateLeft(i: int)
      requires Valid() && i in Ids(shape)
      modifies this
      ensures Valid() && data == old(data) && Entries() == old(Entries())
      ensures shape == RotateLeftAt(old(shape), i)
      ensures old(links[i].right) == NoNode ==> links == old(links) && root == old(root)
      ensures old(links[i].right) != NoNode ==> LeftRotation(old(links), links, i)
      ensures root == if old(links[i].parent) == NoNode && old(links[i].right) != NoNode
                      then old(links[i].right) else old(root)
    {
      var rightChild := links[i].right;
      if rightChild == NoNode {
        NodeChildren(data, links, root, shape, i);
        RotateLeftNoop(shape, i);
        return;
      }
      ghost var ls, t := links, shape;
      RotateLeftReady(data, links, root, shape, i);

      SetRight(i, links[rightChild].left);
      TakePlace(i, rightChild);
      SetLeft(rightChild, i);

      LeftRotationWrites(ls, i);
      RotateLeftValid(data, ls, old(root), t, i, links, root);
      shape := RotateLeftAt(t, i);
    }

    /** `insert`: an empty tree gets a root node holding the pair; otherwise
        `_insert_node` hangs a new node below the root. Either way the new pair
        is the arena's next node and joins the in-order pairs after every pair
        whose key is not greater. */
    method Insert(key: int, value: V)
      requires Valid()
      modifies this
      ensures Valid()
      ensures data == old(data) + [(key, value)]
      ensures Entries() == InsertSorted(old(Entries()), key, value)
      ensures old(root) == NoNode ==> root == 0 && links == [Links(NoNode, NoNode, NoNode)]
      ensures old(root) != NoNode ==>
        root == old(root) && links == Filled(old(links), EmptySlot(old(data), old(shape), key))
    {
      if root == NoNode {
        assert shape == Leaf;
        assert 0 !in Ids(shape);
        assert |data| == 0;
        data := [(key, value)];
        links := [Links(NoNode, NoNode, NoNode)];
        root := 0;
        shape := Node(Leaf, 0, Leaf);
        SingletonValid(key, value);
      } else {
        ghost var d, ls, t := data, links, shape;
        FindRoot(shape);
        InsertNode((key, value), root);
        AttachValid(d, ls, root, t, key, value);
      }
    }

    /** `_insert_node`: descends from node `cur`, left when the new key is
        smaller than the node's key and right otherwise, and hangs a new node
        holding the pair, linked to its parent, in the first empty slot. */
    method InsertNode(entry: (int, V), cur: int)
      requires Valid() && cur in Ids(shape)
      modifies this
      ensures root == old(root) && data == old(data) + [entry]
      ensures links == Filled(old(links), SlotBelow(old(data), old(shape), cur, entry.0))
      ensures shape == Attach(old(shape), SlotBelow(old(data), old(shape), cur, entry.0), |old(data)|)
      decreases Find(shape, cur)
    {
      var key := entry.0;
      NodeChildren(data, links, root, shape, cur);
      PairsFind(data, shape, cur);
      var n := |data|;
      if key < data[cur].0 {
        if links[cur].left != NoNode {
          InsertNode(entry, links[cur].left);
        } else {
          data := data + [entry];
          links := links + [Links(cur, NoNode, NoNode)];
          links := links[cur := links[cur].(left := n)];
          shape := Attach(shape, Slot(cur, true), n);
        }
      } else {
        if links[cur].right != NoNode {
          InsertNode(entry, links[cur].right);
        } else {
          data := data + [entry];
          links := links + [Links(cur, NoNode, NoNode)];
          links := links[cur := links[cur].(right := n)];
          shape := Attach(shape, Slot(cur, false), n);
        }
      }
    }

    /** `search`: walks down from the root, left when the key is smaller than
        the node's key and right when it is larger. A node with the key is
        splayed to the root and its value returned; falling off the tree means
        no pair has the key, and then nothing changes. A key found at the root
        returns the root's value and changes nothing either, so searching
        again for a key just found repeats the answer without a rotation. */
    method Search(key: int) returns (r: Option<V>)
      requires Valid()
      modifies this
      ensures Valid() && data == old(data) && Entries() == old(Entries())
      ensures r.None? <==> !HasKey(old(Entries()), key)
      ensures r.Some? ==> (key, r.value) in old(Entries())
      ensures r.Some? ==> data[root] == (key, r.value) && links[root].parent == NoNode
      ensures r.None? ==> links == old(links) && root == old(root) && shape == old(shape)
      ensures old(0 <= root < |data| && data[root].0 == key) ==>
        r == Some(old(data[root].1)) && links == old(links) && root == old(root) && shape == old(shape)
    {
      var node := root;
      ghost var sub := shape;
      while node != NoNode
        invariant data == old(data) && links == old(links) && root == old(root) && shape == old(shape)
        invariant 0 <= root < |data| && data[root].0 == key ==> node == root
        invariant node == RootId(sub) && InRange(sub, |data|)
        invariant sub.Node? ==> sub.id in Ids(shape) && sub == Find(shape, sub.id)
        invariant HasKey(Entries(), key) ==> HasKey(Pairs(data, sub), key)
        decreases sub
      {
        NodeChildren(data, links, root, shape, node);
        PairsFind(data, shape, node);
        if key < data[node].0 {
          if HasKey(Pairs(data, sub), key) { SearchStep(data, sub, key); }
          node := links[node].left;
          sub := sub.left;
        } else if key > data[node].0 {
          if HasKey(Pairs(data, sub), key) { SearchStep(data, sub, key); }
          node := links[node].right;
          sub := sub.right;
        } else {
          PairsHasNode(data, shape, node);
          NodeParent(data, links, root, shape, node);
          Splay(node);
          return Some(data[node].1);
        }
      }
      return None;
    }

    /** `_splay`: repeats zig, zig-zig and zig-zag steps until `x` has no
        parent. `x` is then the root; the pairs and their order are unchanged,
        and a node that already was the root leaves the tree untouched. */
    method Splay(x: int)
      requires Valid() && x in Ids(shape)
      modifies this
      ensures Valid() && data == old(data) && Entries() == old(Entries())
      ensures root == x && links[x].parent == NoNode
      ensures old(links[x].parent) == NoNode ==> links == old(links) && root == old(root) && shape == old(shape)
    {
      while links[x].parent != NoNode
        invariant Valid() && x in Ids(shape) && data == old(data) && Entries() == old(Entries())
        invariant old(links[x].parent) == NoNode ==> links == old(links) && root == old(root) && shape == old(shape)
        decreases Depth(shape, x)
      {
        SplayStep(x);
      }
      NodeParent(data, links, root, shape, x);
    }

    /** One pass of `_splay`'s loop: a zig when `x`'s parent is the root, a
        zig-zig when `x` and its parent are children on the same side, and a
        zig-zag otherwise. `x` moves up one level in a zig and two otherwise. */
    method SplayStep(x: int)
      requires Valid() && x in Ids(shape) && links[x].parent != NoNode
      modifies this
      ensures Valid() && data == old(data) && Entries() == old(Entries())
      ensures x in Ids(shape) && old(Depth(shape, x)) >= 1
      ensures old(Depth(shape, x)) == 1 ==> Depth(shape, x) == 0
      ensures old(Depth(shape, x)) >= 2 ==> Depth(shape, x) == old(Depth(shape, x)) - 2
    {
      NodeParent(data, links, root, shape, x);
      var p := links[x].parent;
      NodeParent(data, links, root, shape, p);
      NodeChildren(data, links, root, shape, p);
      ghost var t0 := shape;
      if links[p].parent == NoNode {
        if x == links[p].left {
          RotateRight(p);
          RotateRightDepth(t0, p, x);
        } else {
          RotateLeft(p);
          RotateLeftDepth(t0, p, x);
        }
      } else {
        var g := links[p].parent;
        NodeChildren(data, links, root, shape, g);
        if x == links[p].left && p == links[g].left {
          ZigZig(x, p, g);
        } else if x == links[p].right && p == links[g].right {
          ZigZig(x, p, g);
        } else {
          ZigZag(x, p, g);
        }
      }
    }

    /** The zig-zig steps of `_splay`: `x` and its parent `p` are children on
        the same side, so the grandparent `g` is rotated first and then `p`;
        `x` moves up two levels. */
    method ZigZig(x: int, p: int, g: int)
      requires Valid() && x in Ids(shape) && p in Ids(shape) && g in Ids(shape)
      requires links[x].parent == p && links[p].parent == g
      requires (x == links[p].left && p == links[g].left) || (x == links[p].right && p == links[g].right)
      modifies this
      ensures Valid() && data == old(data) && Entries() == old(Entries())
      ensures x in Ids(shape) && x in Ids(old(shape))
      ensures Depth(shape, x) + 2 == old(Depth(shape, x))
    {
      ghost var t0 := shape;
      NodeChildren(data, links, root, shape, p);
      NodeChildren(data, links, root, shape, g);
      GrandchildApart(data, links, root, shape, x, p, g);
      if x == links[p].left {
        RotateRight(g);
        RotateRightDepth(t0, g, x);
        ghost var t1 := shape;
        NodeChildren(data, links, root, shape, p);
        RotateRight(links[x].parent);
        RotateRightDepth(t1, p, x);
      } else {
        RotateLeft(g);
        RotateLeftDepth(t0, g, x);
        ghost var t1 := shape;
        NodeChildren(data, links, root, shape, p);
        RotateLeft(links[x].parent);
        RotateLeftDepth(t1, p, x);
      }
    }

    /** The zig-zag steps of `_splay`: `x` and its parent `p` are children on
        opposite sides, so `p` is rotated to lift `x`, and then `x`'s new
        parent, the old grandparent `g`, is rotated the other way; `x` moves up
        two levels. */
    method ZigZag(x: int, p: int, g: int)
      requires Valid() && x in Ids(shape) && p in Ids(shape) && g in Ids(shape)
      requires links[x].parent == p && links[p].parent == g
      requires (x == links[p].left && p == links[g].right) || (x == links[p].right && p == links[g].left)
      modifies this
      ensures Valid() && data == old(data) && Entries() == old(Entries())
      ensures x in Ids(shape) && x in Ids(old(shape))
      ensures Depth(shape, x) + 2 == old(Depth(shape, x))
    {
      ghost var t0 := shape;
      NodeChildren(data, links, root, shape, p);
      NodeChildren(data, links, root, shape, g);
      FindUnique(shape, g);
      if x == links[p].left {
        RotateRight(links[x].parent);
        RotateRightDepth(t0, p, x);
        ghost var t1 := shape;
        NodeChildren(data, links, root, shape, g);
        RotateLeft(links[x].parent);
        RotateLeftDepth(t1, g, x);
      } else {
        RotateLeft(links[x].parent);
        RotateLeftDepth(t0, p, x);
        ghost var t1 := shape;
        NodeChildren(data, links, root, shape, g);
        RotateRight(links[x].parent);
        RotateRightDepth(t1, g, x);
      }
    }
  }
}
