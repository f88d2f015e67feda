/** The contents of a splay tree: the (key, value) pairs of its nodes read in
    order, the ordering they keep, and where an insertion puts a new pair. */
module InOrder {
  import opened Shape

  /** Every node of `t` is an index into an arena of `n` nodes. */
  predicate InRange(t: Tree, n: int) {
    match t
    case Leaf => true
    case Node(l, i, r) => 0 <= i < n && InRange(l, n) && InRange(r, n)
  }

  /** The in-order sequence of (key, value) pairs stored at the nodes of `t`. */
  function Pairs<V>(data: seq<(int, V)>, t: Tree): seq<(int, V)>
    requires InRange(t, |data|)
  {
    match t
    case Leaf => []
    case Node(l, i, r) => Pairs(data, l) + [data[i]] + Pairs(data, r)
  }

  /** Keys never decrease from left to right (equal keys are allowed). */
  predicate Sorted<V>(s: seq<(int, V)>) {
    forall a, b :: 0 <= a < b < |s| ==> s[a].0 <= s[b].0
  }

  /** Some pair of `s` has key `key`. */
  ghost predicate HasKey<V>(s: seq<(int, V)>, key: int) {
    exists e :: e in s && e.0 == key
  }

  /** `s` with (key, v) inserted before the first pair whose key is greater than
      `key`, so after every pair with an equal key. */
  function InsertSorted<V>(s: seq<(int, V)>, key: int, v: V): seq<(int, V)>
  {
    if |s| == 0 || key < s[0].0 then [(key, v)] + s
    else [s[0]] + InsertSorted(s[1..], key, v)
  }

  /** Sorted insertion adds exactly the one new pair. */
  lemma {:induction false} InsertSortedContents<V>(s: seq<(int, V)>, key: int, v: V)
    ensures multiset(InsertSorted(s, key, v)) == multiset(s) + multiset{(key, v)}
  {
    if |s| > 0 && key >= s[0].0 {
      InsertSortedContents(s[1..], key, v);
      assert s == [s[0]] + s[1..];
    }
  }

  /** The slot a new pair with key `key` fills when it descends from the root of
      `t`, going left exactly when the key is smaller than the node's. */
  function EmptySlot<V>(data: seq<(int, V)>, t: Tree, key: int): (s: Slot)
    requires t.Node? && InRange(t, |data|)
    ensures s.parent in Ids(t) && 0 <= s.parent < |data|
    ensures s.left <==> key < data[s.parent].0
    ensures Unique(t) ==>
      if s.left then Find(t, s.parent).left.Leaf? else Find(t, s.parent).right.Leaf?
  {
    if key < data[t.id].0 then
      if t.left.Leaf? then Slot(t.id, true) else EmptySlot(data, t.left, key)
    else
      if t.right.Leaf? then Slot(t.id, false) else EmptySlot(data, t.right, key)
  }

  // ---------------------------------------------------------------------------
  // Sequences
  // ---------------------------------------------------------------------------

  /** Sortedness of a sequence split around one pair gives sortedness of each part
      and bounds every key on either side by the middle pair's key. */
  lemma {:induction false} SortedParts<V>(x: seq<(int, V)>, e: (int, V), y: seq<(int, V)>)
    requires Sorted(x + [e] + y)
    ensures Sorted(x) && Sorted(y)
    ensures forall a :: a in x ==> a.0 <= e.0
    ensures forall b :: b in y ==> e.0 <= b.0
  {
    var s := x + [e] + y;
    assert s[|x|] == e;
    forall a, b | 0 <= a < b < |x| ensures x[a].0 <= x[b].0 {
      assert s[a] == x[a] && s[b] == x[b];
    }
    forall a, b | 0 <= a < b < |y| ensures y[a].0 <= y[b].0 {
      assert s[|x| + 1 + a] == y[a] && s[|x| + 1 + b] == y[b];
    }
    forall a | a in x ensures a.0 <= e.0 {
      var k :| 0 <= k < |x| && x[k] == a;
      assert s[k] == a;
    }
    forall b | b in y ensures e.0 <= b.0 {
      var k :| 0 <= k < |y| && y[k] == b;
      assert s[|x| + 1 + k] == b;
    }
  }

  /** Inserting into a concatenation whose second part starts above the key
      inserts into the first part. */
  lemma {:induction false} InsertSortedBefore<V>(x: seq<(int, V)>, y: seq<(int, V)>, key: int, v: V)
    requires y != [] && key < y[0].0
    ensures InsertSorted(x + y, key, v) == InsertSorted(x, key, v) + y
  {
    if x != [] && key >= x[0].0 {
      assert (x + y)[1..] == x[1..] + y;
      InsertSortedBefore(x[1..], y, key, v);
    } else if x == [] {
      assert x + y == y;
    }
  }

  /** Inserting into a concatenation whose first part lies at or below the key
      inserts into the second part. */
  lemma {:induction false} InsertSortedAfter<V>(x: seq<(int, V)>, y: seq<(int, V)>, key: int, v: V)
    requires forall a :: a in x ==> a.0 <= key
    ensures InsertSorted(x + y, key, v) == x + InsertSorted(y, key, v)
  {
    if x != [] {
      assert x[0] in x;
      assert forall a :: a in x[1..] ==> a in x;
      InsertSortedAfter(x[1..], y, key, v);
      calc {
        InsertSorted(x + y, key, v);
        { assert (x + y)[0] == x[0]; }
        [x[0]] + InsertSorted((x + y)[1..], key, v);
        { assert (x + y)[1..] == x[1..] + y; }
        [x[0]] + (x[1..] + InsertSorted(y, key, v));
        { assert x == [x[0]] + x[1..]; }
        x + InsertSorted(y, key, v);
      }
    } else {
      assert x + y == y;
    }
  }

  /** Sorted insertion keeps a sorted sequence sorted. */
  lemma {:induction false} InsertSortedSorted<V>(s: seq<(int, V)>, key: int, v: V)
    requires Sorted(s)
    ensures Sorted(InsertSorted(s, key, v))
  {
    InsertSortedPlacement(s, key, v);
    var m := InsertPosition(s, key);
    var q := InsertSorted(s, key, v);
    assert forall x :: 0 <= x < m ==> q[x] == s[x];
    assert q[m] == (key, v);
    assert forall x :: m < x < |q| ==> q[x] == s[x - 1];
    forall a, b | 0 <= a < b < |q| ensures q[a].0 <= q[b].0 {
      if b < m {
        assert q[a] == s[a] && q[b] == s[b];
      } else if b == m {
        assert q[a] == s[a];
      } else if a < m {
        assert q[a] == s[a] && q[b] == s[b - 1] && s[a].0 <= s[b - 1].0;
      } else if a == m {
        assert q[b] == s[b - 1];
      } else {
        assert q[a] == s[a - 1] && q[b] == s[b - 1];
      }
    }
  }

  /** No key occurs twice in `s`. */
  predicate KeysDistinct<V>(s: seq<(int, V)>) {
    forall a, b :: 0 <= a < b < |s| ==> s[a].0 != s[b].0
  }

  /** After sorted insertion, key `k` is present exactly when it was present
      before or is the inserted key. */
  lemma {:induction false} InsertSortedHasKey<V>(s: seq<(int, V)>, key: int, v: V, k: int)
    ensures HasKey(InsertSorted(s, key, v), k) <==> HasKey(s, k) || k == key
  {
    var r := InsertSorted(s, key, v);
    InsertSortedContents(s, key, v);
    if HasKey(r, k) {
      var e :| e in r && e.0 == k;
      assert e in multiset(r);
    }
    if HasKey(s, k) {
      var e :| e in s && e.0 == k;
      assert e in multiset(s) && e in multiset(r);
    }
    if k == key {
      assert (key, v) in multiset(r);
      assert (key, v) in r;
    }
  }

  /** Inserting a key that is absent keeps the keys distinct. */
  lemma {:induction false} InsertSortedDistinct<V>(s: seq<(int, V)>, key: int, v: V)
    requires KeysDistinct(s) && !HasKey(s, key)
    ensures KeysDistinct(InsertSorted(s, key, v))
  {
    if |s| == 0 || key < s[0].0 {
      var q := [(key, v)] + s;
      forall a, b | 0 <= a < b < |q| ensures q[a].0 != q[b].0 {
        if a == 0 {
          assert q[b] == s[b - 1] && q[b] in s;
        } else {
          assert q[a] == s[a - 1] && q[b] == s[b - 1];
        }
      }
    } else {
      var t := s[1..];
      assert KeysDistinct(t) by {
        forall a, b | 0 <= a < b < |t| ensures t[a].0 != t[b].0 {
          assert t[a] == s[a + 1] && t[b] == s[b + 1];
        }
      }
      assert !HasKey(t, key) by {
        forall e | e in t ensures e.0 != key { assert e in s; }
      }
      InsertSortedDistinct(t, key, v);
      var r := InsertSorted(t, key, v);
      var q := [s[0]] + r;
      assert q == InsertSorted(s, key, v);
      forall a, b | 0 <= a < b < |q| ensures q[a].0 != q[b].0 {
        if a == 0 {
          InsertSortedHasKey(t, key, v, q[b].0);
          assert r[b - 1] in r && q[b] == r[b - 1];
          assert HasKey(t, q[b].0) || q[b].0 == key;
          if HasKey(t, q[b].0) {
            var e :| e in t && e.0 == q[b].0;
            var j :| 0 <= j < |t| && t[j] == e;
            assert s[j + 1] == e;
          } else {
            assert s[0] in s;
          }
        } else {
          assert q[a] == r[a - 1] && q[b] == r[b - 1];
        }
      }
    }
  }

  /** The number of leading pairs of `s` whose key is at most `key`. */
  function InsertPosition<V>(s: seq<(int, V)>, key: int): (m: nat)
    ensures m <= |s|
    ensures forall a :: 0 <= a < m ==> s[a].0 <= key
    ensures m < |s| ==> key < s[m].0
  {
    if |s| == 0 || key < s[0].0 then 0
    else
      var m' := InsertPosition(s[1..], key);
      assert forall a :: 1 <= a < m' + 1 ==> s[a] == s[1..][a - 1];
      1 + m'
  }

  /** Sorted insertion puts the new pair at `InsertPosition`, after every pair
      with a key at most `key`. */
  lemma {:induction false} InsertSortedPlacement<V>(s: seq<(int, V)>, key: int, v: V)
    ensures var m := InsertPosition(s, key);
      InsertSorted(s, key, v) == s[..m] + [(key, v)] + s[m..]
  {
    var m := InsertPosition(s, key);
    if |s| == 0 || key < s[0].0 {
      assert s[..0] == [] && s[0..] == s;
    } else {
      var t := s[1..];
      InsertSortedPlacement(t, key, v);
      assert m == 1 + InsertPosition(t, key);
      assert s[..m] == [s[0]] + t[..m - 1];
      assert s[m..] == t[m - 1..];
    }
  }

  /** In a sorted sequence every pair from `InsertPosition` on has a key
      greater than `key`, so the new pair goes before all of them. */
  lemma {:induction false} InsertPositionSorted<V>(s: seq<(int, V)>, key: int)
    requires Sorted(s)
    ensures forall a :: InsertPosition(s, key) <= a < |s| ==> key < s[a].0
  {
    var m := InsertPosition(s, key);
    forall a | m <= a < |s| ensures key < s[a].0 {
      assert s[m].0 <= s[a].0;
    }
  }

  // ---------------------------------------------------------------------------
  // Pairs of trees
  // ---------------------------------------------------------------------------

  /** Appending a node to the arena does not change the pairs of a tree that does
      not use it. */
  lemma {:induction false} PairsExtend<V>(data: seq<(int, V)>, e: (int, V), t: Tree)
    requires InRange(t, |data|)
    ensures InRange(t, |data| + 1) && Pairs(data + [e], t) == Pairs(data, t)
  {
    match t
    case Leaf =>
    case Node(l, i, r) =>
      PairsExtend(data, e, l);
      PairsExtend(data, e, r);
  }

  /** The pair of every node of `t` is among the pairs of `t`. */
  lemma {:induction false} PairsHasNode<V>(data: seq<(int, V)>, t: Tree, i: int)
    requires InRange(t, |data|) && i in Ids(t)
    ensures 0 <= i < |data| && data[i] in Pairs(data, t)
  {
    match t
    case Node(l, j, r) =>
      if i in Ids(l) {
        PairsHasNode(data, l, i);
      } else if i in Ids(r) {
        PairsHasNode(data, r, i);
      }
  }

  /** The pairs of a subtree are among the pairs of the whole tree, and a
      subtree of a sorted tree is sorted. */
  lemma {:induction false} PairsFind<V>(data: seq<(int, V)>, t: Tree, i: int)
    requires InRange(t, |data|) && i in Ids(t)
    ensures InRange(Find(t, i), |data|)
    ensures forall e :: e in Pairs(data, Find(t, i)) ==> e in Pairs(data, t)
    ensures Sorted(Pairs(data, t)) ==> Sorted(Pairs(data, Find(t, i)))
  {
    match t
    case Node(l, j, r) =>
      if j != i {
        var s := Pairs(data, t);
        if Sorted(s) { SortedParts(Pairs(data, l), data[j], Pairs(data, r)); }
        if i in Ids(l) {
          PairsFind(data, l, i);
        } else {
          PairsFind(data, r, i);
        }
      }
  }

  /** Replacing a subtree by one with the same pairs keeps the pairs of the tree. */
  lemma {:induction false} PairsReplace<V>(data: seq<(int, V)>, t: Tree, i: int, s: Tree)
    requires InRange(t, |data|) && InRange(s, |data|) && i in Ids(t) && InRange(Find(t, i), |data|)
    requires Pairs(data, s) == Pairs(data, Find(t, i))
    ensures InRange(Replace(t, i, s), |data|)
    ensures Pairs(data, Replace(t, i, s)) == Pairs(data, t)
  {
    match t
    case Node(l, j, r) =>
      if j != i {
        if i in Ids(l) {
          PairsReplace(data, l, i, s);
        } else {
          PairsReplace(data, r, i, s);
        }
      }
  }

  /** A right rotation at the root of a subtree keeps its in-order pairs. */
  lemma {:induction false} PairsRotateRightHere<V>(data: seq<(int, V)>, s: Tree)
    requires InRange(s, |data|)
    ensures InRange(RotateRightHere(s), |data|)
    ensures Pairs(data, RotateRightHere(s)) == Pairs(data, s)
  {
    if s.Node? && s.left.Node? {
      var a, l, b, i, c := s.left.left, s.left.id, s.left.right, s.id, s.right;
      var pa, pb, pc := Pairs(data, a), Pairs(data, b), Pairs(data, c);
      assert Pairs(data, RotateRightHere(s)) == pa + [data[l]] + (pb + [data[i]] + pc);
      assert Pairs(data, s) == pa + [data[l]] + pb + [data[i]] + pc;
    }
  }

  /** A left rotation at the root of a subtree keeps its in-order pairs. */
  lemma {:induction false} PairsRotateLeftHere<V>(data: seq<(int, V)>, s: Tree)
    requires InRange(s, |data|)
    ensures InRange(RotateLeftHere(s), |data|)
    ensures Pairs(data, RotateLeftHere(s)) == Pairs(data, s)
  {
    if s.Node? && s.right.Node? {
      var a, i, b, r, c := s.left, s.id, s.right.left, s.right.id, s.right.right;
      var pa, pb, pc := Pairs(data, a), Pairs(data, b), Pairs(data, c);
      assert Pairs(data, RotateLeftHere(s)) == pa + [data[i]] + pb + [data[r]] + pc;
      assert Pairs(data, s) == pa + [data[i]] + (pb + [data[r]] + pc);
    }
  }

  /** A right rotation keeps the in-order sequence of (key, value) pairs. */
  lemma {:induction false} PairsRotateRight<V>(data: seq<(int, V)>, t: Tree, i: int)
    requires InRange(t, |data|) && i in Ids(t)
    ensures InRange(RotateRightAt(t, i), |data|)
    ensures Pairs(data, RotateRightAt(t, i)) == Pairs(data, t)
  {
    PairsFind(data, t, i);
    PairsRotateRightHere(data, Find(t, i));
    PairsReplace(data, t, i, RotateRightHere(Find(t, i)));
  }

  /** A left rotation keeps the in-order sequence of (key, value) pairs. */
  lemma {:induction false} PairsRotateLeft<V>(data: seq<(int, V)>, t: Tree, i: int)
    requires InRange(t, |data|) && i in Ids(t)
    ensures InRange(RotateLeftAt(t, i), |data|)
    ensures Pairs(data, RotateLeftAt(t, i)) == Pairs(data, t)
  {
    PairsFind(data, t, i);
    PairsRotateLeftHere(data, Find(t, i));
    PairsReplace(data, t, i, RotateLeftHere(Find(t, i)));
  }

  /** Inserting a new last node of the arena into the slot its key descends to
      inserts its pair into the sorted in-order sequence, after all equal keys. */
  lemma {:induction false} PairsAttach<V>(data: seq<(int, V)>, t: Tree, key: int, v: V)
    requires t.Node? && Unique(t) && InRange(t, |data|) && Sorted(Pairs(data, t))
    ensures InRange(Attach(t, EmptySlot(data, t, key), |data|), |data| + 1)
    ensures Pairs(data + [(key, v)], Attach(t, EmptySlot(data, t, key), |data|))
         == InsertSorted(Pairs(data, t), key, v)
    decreases t, 1
  {
    if key < data[t.id].0 {
      if t.left.Leaf? {
        PairsFillLeft(data, t, key, v);
      } else {
        PairsAttachLeft(data, t, key, v);
      }
    } else {
      if t.right.Leaf? {
        PairsFillRight(data, t, key, v);
      } else {
        PairsAttachRight(data, t, key, v);
      }
    }
  }

  /** The new node fills the empty left slot of the root, whose key is
      greater: its pair goes first. */
  lemma {:induction false} PairsFillLeft<V>(data: seq<(int, V)>, t: Tree, key: int, v: V)
    requires t.Node? && t.left.Leaf? && InRange(t, |data|) && key < data[t.id].0
    ensures InRange(Attach(t, Slot(t.id, true), |data|), |data| + 1)
    ensures Pairs(data + [(key, v)], Attach(t, Slot(t.id, true), |data|))
         == InsertSorted(Pairs(data, t), key, v)
  {
    var n, j, r := |data|, t.id, t.right;
    var data' := data + [(key, v)];
    assert Attach(t, Slot(j, true), n) == Node(Node(Leaf, n, Leaf), j, r);
    PairsExtend(data, (key, v), r);
    assert Pairs(data', Node(Leaf, n, Leaf)) == [(key, v)];
    assert Pairs(data, t) == [data[j]] + Pairs(data, r);
  }

  /** The new node fills the empty right slot of the root, whose key is not
      greater: its pair goes after every pair of the tree. */
  lemma {:induction false} PairsFillRight<V>(data: seq<(int, V)>, t: Tree, key: int, v: V)
    requires t.Node? && t.right.Leaf? && InRange(t, |data|) && Sorted(Pairs(data, t))
    requires key >= data[t.id].0
    ensures InRange(Attach(t, Slot(t.id, false), |data|), |data| + 1)
    ensures Pairs(data + [(key, v)], Attach(t, Slot(t.id, false), |data|))
         == InsertSorted(Pairs(data, t), key, v)
  {
    var n, l, j := |data|, t.left, t.id;
    var data' := data + [(key, v)];
    assert Attach(t, Slot(j, false), n) == Node(l, j, Node(Leaf, n, Leaf));
    PairsExtend(data, (key, v), l);
    assert Pairs(data, t) == Pairs(data, l) + [data[j]] + [];
    SortedParts(Pairs(data, l), data[j], []);
    InsertSortedAfter(Pairs(data, l) + [data[j]], [], key, v);
    assert Pairs(data', Node(Leaf, n, Leaf)) == [(key, v)];
  }

  /** The case of `PairsAttach` where the descent continues into a left subtree. */
  lemma {:induction false} PairsAttachLeft<V>(data: seq<(int, V)>, t: Tree, key: int, v: V)
    requires t.Node? && Unique(t) && InRange(t, |data|) && Sorted(Pairs(data, t))
    requires key < data[t.id].0 && t.left.Node?
    ensures InRange(Attach(t, EmptySlot(data, t, key), |data|), |data| + 1)
    ensures Pairs(data + [(key, v)], Attach(t, EmptySlot(data, t, key), |data|))
         == InsertSorted(Pairs(data, t), key, v)
    decreases t, 0
  {
    var n := |data|;
    var l, j, r := t.left, t.id, t.right;
    var slot := EmptySlot(data, l, key);
    assert slot == EmptySlot(data, t, key);
    AttachLeftStep(t, slot, n);
    assert Sorted(Pairs(data, l)) by {
      SortedParts(Pairs(data, l), data[j], Pairs(data, r));
    }
    PairsExtend(data, (key, v), r);
    PairsAttach(data, l, key, v);
    var data' := data + [(key, v)];
    var rest := [data[j]] + Pairs(data, r);
    calc {
      Pairs(data', Attach(t, slot, n));
      Pairs(data', Attach(l, slot, n)) + [data'[j]] + Pairs(data', r);
      InsertSorted(Pairs(data, l), key, v) + rest;
      { InsertSortedBefore(Pairs(data, l), rest, key, v); }
      InsertSorted(Pairs(data, l) + rest, key, v);
      { assert Pairs(data, t) == Pairs(data, l) + rest; }
      InsertSorted(Pairs(data, t), key, v);
    }
  }

  /** The case of `PairsAttach` where the descent continues into a right subtree. */
  lemma {:induction false} PairsAttachRight<V>(data: seq<(int, V)>, t: Tree, key: int, v: V)
    requires t.Node? && Unique(t) && InRange(t, |data|) && Sorted(Pairs(data, t))
    requires key >= data[t.id].0 && t.right.Node?
    ensures InRange(Attach(t, EmptySlot(data, t, key), |data|), |data| + 1)
    ensures Pairs(data + [(key, v)], Attach(t, EmptySlot(data, t, key), |data|))
         == InsertSorted(Pairs(data, t), key, v)
    decreases t, 0
  {
    var n := |data|;
    var l, j, r := t.left, t.id, t.right;
    var slot := EmptySlot(data, r, key);
    assert slot == EmptySlot(data, t, key);
    AttachRightStep(t, slot, n);
    SortedParts(Pairs(data, l), data[j], Pairs(data, r));
    PairsExtend(data, (key, v), l);
    PairsAttach(data, r, key, v);
    assert forall a :: a in Pairs(data, l) + [data[j]] ==> a.0 <= key;
    InsertSortedAfter(Pairs(data, l) + [data[j]], Pairs(data, r), key, v);
  }

  /** The search rule: in a sorted tree, a key smaller than the root's can only
      be in the left subtree, and a greater one only in the right subtree. */
  lemma {:induction false} SearchStep<V>(data: seq<(int, V)>, s: Tree, key: int)
    requires s.Node? && InRange(s, |data|) && Sorted(Pairs(data, s))
    requires HasKey(Pairs(data, s), key) && key != data[s.id].0
    ensures key < data[s.id].0 ==> HasKey(Pairs(data, s.left), key)
    ensures key > data[s.id].0 ==> HasKey(Pairs(data, s.right), key)
  {
    SortedParts(Pairs(data, s.left), data[s.id], Pairs(data, s.right));
  }
}
