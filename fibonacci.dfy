/** The client `fibonacci_splay` of `Lru_vs_SplayTree.py`: Fibonacci numbers
    memoised in a splay tree whose pairs map a number to its Fibonacci number. */
module Fibonacci {
  import opened Wrappers
  import opened InOrder
  import opened SplayTrees

  /** The Fibonacci numbers as the recursion of `fibonacci_splay` defines
      them: `n` itself for every `n <= 1`, negative `n` included, and the sum
      of the two before it otherwise. */
  function Fib(n: int): int {
    if n <= 1 then n else Fib(n - 1) + Fib(n - 2)
  }

  /** Every pair of the memo maps a number to its Fibonacci number. */
  ghost predicate Memo(s: seq<(int, int)>) {
    forall e :: e in s ==> e.1 == Fib(e.0)
  }

  /** Every memoised `k >= 2` has `k - 1` and `k - 2` memoised as well: the
      recursion stores `k` only after both calls below it returned. */
  ghost predicate Closed(s: seq<(int, int)>) {
    forall k {:trigger HasOperands(s, k)} :: k >= 2 && HasKey(s, k) ==> HasOperands(s, k)
  }

  /** The two numbers Fib(k) is computed from are memoised. */
  ghost predicate HasOperands(s: seq<(int, int)>, k: int) {
    HasKey(s, k - 1) && HasKey(s, k - 2)
  }

  /** The state `fibonacci_splay` keeps between calls: a well-formed ordered
      tree whose pairs form a memo table, closed under the recursion, with each
      key stored once. */
  ghost predicate MemoTree(tree: SplayTree<int>)
    reads tree
  {
    tree.Valid() && Memo(tree.Entries()) && Closed(tree.Entries()) && KeysDistinct(tree.Entries())
  }

  /** In a closed memo, a memoised `n` that is 0 or at least 2 brings every
      number from 0 to `n` with it. (For `n == 1` nothing follows: the base
      case stores 1 without 0.) */
  lemma {:induction false} ClosedPrefix(s: seq<(int, int)>, n: int)
    requires Closed(s) && HasKey(s, n) && (n == 0 || n >= 2)
    ensures forall k :: 0 <= k <= n ==> HasKey(s, k)
  {
    if n >= 2 {
      assert HasOperands(s, n);
      if n >= 3 {
        ClosedPrefix(s, n - 1);
      }
    }
  }

  /** Storing Fib(n) under a key `n` that is absent, once `n - 1` and `n - 2`
      are stored when `n >= 2`, keeps the memo a closed table with distinct
      keys, and adds exactly the one pair. */
  lemma {:induction false} MemoInsert(s: seq<(int, int)>, n: int)
    requires Memo(s) && Closed(s) && KeysDistinct(s) && !HasKey(s, n)
    requires n >= 2 ==> HasKey(s, n - 1) && HasKey(s, n - 2)
    ensures var s' := InsertSorted(s, n, Fib(n));
      && Memo(s') && Closed(s') && KeysDistinct(s') && HasKey(s', n)
      && forall e :: e in s' <==> e in s || e == (n, Fib(n))
  {
    var s' := InsertSorted(s, n, Fib(n));
    InsertSortedContents(s, n, Fib(n));
    InsertSortedDistinct(s, n, Fib(n));
    forall e ensures e in s' <==> e in s || e == (n, Fib(n)) {
      assert e in s' <==> e in multiset(s');
      assert e in s <==> e in multiset(s);
    }
    forall k ensures HasKey(s', k) <==> HasKey(s, k) || k == n {
      InsertSortedHasKey(s, n, Fib(n), k);
    }
    forall k | k >= 2 && HasKey(s', k) ensures HasOperands(s', k) {
      if k != n {
        assert HasOperands(s, k);
      }
    }
  }

  /** A sorted memo with distinct keys, all between 0 and `n`, that holds
      every key from 0 to `n` is exactly the table Fib(0), ..., Fib(n). */
  lemma {:induction false} ExactTable(s: seq<(int, int)>, n: int)
    requires n >= 0 && Sorted(s) && KeysDistinct(s) && Memo(s)
    requires forall e :: e in s ==> 0 <= e.0 <= n
    requires forall k :: 0 <= k <= n ==> HasKey(s, k)
    ensures |s| == n + 1
    ensures forall i :: 0 <= i < |s| ==> s[i] == (i, Fib(i))
  {
    forall i | 0 <= i < |s| ensures s[i] == (i, Fib(i)) {
      KeyAt(s, n, i);
      assert s[i] in s;
    }
    assert HasKey(s, n);
    var e :| e in s && e.0 == n;
    var j :| 0 <= j < |s| && s[j] == e;
    assert s[|s| - 1] in s;
  }

  /** In such a memo the pair at index `i` has key `i`. */
  lemma {:induction false} KeyAt(s: seq<(int, int)>, n: int, i: int)
    requires n >= 0 && Sorted(s) && KeysDistinct(s)
    requires forall e :: e in s ==> 0 <= e.0 <= n
    requires forall k :: 0 <= k <= n ==> HasKey(s, k)
    requires 0 <= i < |s|
    ensures s[i].0 == i
    decreases i
  {
    assert s[i] in s;
    if i > 0 {
      KeyAt(s, n, i - 1);
      assert s[i - 1].0 < s[i].0;
    }
    assert i <= s[i].0 <= n;
    assert HasKey(s, i);
    var e :| e in s && e.0 == i;
    var j :| 0 <= j < |s| && s[j] == e;
    if i < j {
      assert s[i].0 <= s[j].0;
    }
  }

  /** `fibonacci_splay`: a hit in the tree is returned as found; a miss is
      handed to `Compute`. The result is Fib(n); the tree keeps its pairs and
      gains only keys from 0 to `n` (just `n`, when `n` is negative), among
      them `n`. */
  method FibonacciSplay(n: int, tree: SplayTree<int>) returns (r: int)
    requires MemoTree(tree)
    modifies tree
    ensures MemoTree(tree)
    ensures r == Fib(n) && HasKey(tree.Entries(), n)
    ensures forall e :: e in old(tree.Entries()) ==> e in tree.Entries()
    ensures forall e :: e in tree.Entries() && e !in old(tree.Entries()) ==> e.0 <= n && (0 <= e.0 || e.0 == n)
    ensures n == 0 || n >= 2 ==> forall k :: 0 <= k <= n ==> HasKey(tree.Entries(), k)
    decreases n, 1
  {
    var result := tree.Search(n);
    if result.Some? {
      if n == 0 || n >= 2 {
        ClosedPrefix(tree.Entries(), n);
      }
      return result.value;
    }
    r := Compute(n, tree);
  }

  /** The miss path of `fibonacci_splay`: Fib(n) is `n` itself when `n <= 1`
      and the sum of the two recursive calls otherwise, and it is stored under
      key `n`, which the tree does not hold yet. */
  method Compute(n: int, tree: SplayTree<int>) returns (r: int)
    requires MemoTree(tree) && !HasKey(tree.Entries(), n)
    modifies tree
    ensures MemoTree(tree)
    ensures r == Fib(n) && HasKey(tree.Entries(), n)
    ensures forall e :: e in old(tree.Entries()) ==> e in tree.Entries()
    ensures forall e :: e in tree.Entries() && e !in old(tree.Entries()) ==> e.0 <= n && (0 <= e.0 || e.0 == n)
    ensures n == 0 || n >= 2 ==> forall k :: 0 <= k <= n ==> HasKey(tree.Entries(), k)
    decreases n, 0
  {
    ghost var before := tree.Entries();
    if n <= 1 {
      r := n;
    } else {
      var a := FibonacciSplay(n - 1, tree);
      var b := FibonacciSplay(n - 2, tree);
      r := a + b;
    }
    ghost var s := tree.Entries();
    assert !HasKey(s, n) by {
      forall e | e in s ensures e.0 != n {
        if e !in before {
          assert e.0 < n;
        } else {
          assert !HasKey(before, n);
        }
      }
    }
    Store(n, r, tree);
  }

  /** The store at the end of the miss path: `tree.insert(n, result)` on a
      tree that lacks `n` and, for `n >= 2`, holds `n - 1` and `n - 2`. */
  method Store(n: int, r: int, tree: SplayTree<int>)
    requires MemoTree(tree) && !HasKey(tree.Entries(), n) && r == Fib(n)
    requires n >= 2 ==> HasKey(tree.Entries(), n - 1) && HasKey(tree.Entries(), n - 2)
    modifies tree
    ensures MemoTree(tree) && HasKey(tree.Entries(), n)
    ensures forall e :: e in tree.Entries() <==> e in old(tree.Entries()) || e == (n, r)
    ensures n >= 2 ==> forall k :: 0 <= k <= n ==> HasKey(tree.Entries(), k)
  {
    ghost var s := tree.Entries();
    MemoInsert(s, n);
    tree.Insert(n, r);
    ghost var s' := tree.Entries();
    assert s' == InsertSorted(s, n, Fib(n));
    if n >= 2 {
      ClosedPrefix(s', n);
    }
  }

  /** `fibonacci_splay(n, SplayTree())`: from an empty tree the result is
      Fib(n), and the tree maps keys between 0 and `n` (or `n` alone, for a
      negative `n`) to their Fibonacci numbers, among them `n`. When `n` is 0
      or at least 2 its pairs in order are exactly (0, Fib(0)), ..., (n,
      Fib(n)): one insertion per key. (For `n == 1` the base case stores 1
      alone.) */
  method FibonacciFromEmpty(n: int) returns (r: int, tree: SplayTree<int>)
    ensures r == Fib(n) && tree.Valid()
    ensures forall e :: e in tree.Entries() ==> e.1 == Fib(e.0) && e.0 <= n && (0 <= e.0 || e.0 == n)
    ensures KeysDistinct(tree.Entries()) && HasKey(tree.Entries(), n)
    ensures n == 0 || n >= 2 ==> forall k :: 0 <= k <= n ==> HasKey(tree.Entries(), k)
    ensures n == 0 || n >= 2 ==>
      |tree.Entries()| == n + 1 && forall i :: 0 <= i <= n ==> tree.Entries()[i] == (i, Fib(i))
  {
    tree := new SplayTree<int>();
    r := FibonacciSplay(n, tree);
    if n == 0 || n >= 2 {
      ExactTable(tree.Entries(), n);
    }
  }

  /** For example, `fibonacci_splay(10, SplayTree())` is 55. */
  method FibonacciOfTen() returns (r: int)
    ensures r == 55
  {
    var tree;
    r, tree := FibonacciFromEmpty(10);
  }
}
