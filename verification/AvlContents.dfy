/** What insertion and removal do to the ordered contents of the tree. */
module AvlContents {
  import opened AvlMemory
  import opened AvlShape

  /** Behind every entry with a key that is not greater. */
  ghost function InsertSorted(s: seq<Entry>, e: Entry): seq<Entry>
  {
    if s == [] || s[0].key > e.key then [e] + s else [s[0]] + InsertSorted(s[1..], e)
  }

  lemma {:induction false} InsertBetween(b: seq<Entry>, e: Entry, a: seq<Entry>)
    requires AllAtMost(b, e.key) && AllAbove(a, e.key)
    ensures InsertSorted(b + a, e) == b + [e] + a
  {
    if b == [] {
      assert b + a == a;
      assert a != [] ==> a[0] in a;
    } else {
      assert b[0] in b;
      assert (b + a)[1..] == b[1..] + a;
      InsertBetween(b[1..], e, a);
      assert [b[0]] + (b[1..] + [e] + a) == b + [e] + a;
    }
  }

  /** The new entry stands at position `k`, behind all entries with an equal key. */
  ghost predicate InsertedAt(s: seq<Entry>, e: Entry, k: int)
  {
    && 0 <= k <= |s| && InsertSorted(s, e) == s[..k] + [e] + s[k..]
    && AllAtMost(s[..k], e.key) && AllAbove(s[k..], e.key)
  }

  lemma InsertedAtSorted(s: seq<Entry>, e: Entry, k: int)
    requires Sorted(s) && InsertedAt(s, e, k)
    ensures Sorted(InsertSorted(s, e))
  {
    var r := InsertSorted(s, e);
    forall i, j | 0 <= i < j < |r|
      ensures r[i].key <= r[j].key
    {
      assert i < k ==> r[i] == s[i] && s[i] in s[..k];
      assert j < k ==> r[j] == s[j];
      assert i > k ==> r[i] == s[i - 1];
      assert j > k ==> r[j] == s[j - 1] && s[j - 1] in s[k..];
    }
  }

  /** The first `k` entries are those with a key that is not greater. */
  lemma SplitPoint(s: seq<Entry>, key: nat) returns (k: nat)
    requires Sorted(s)
    ensures k <= |s| && AllAtMost(s[..k], key) && AllAbove(s[k..], key)
  {
    k := 0;
    while k < |s| && s[k].key <= key
      invariant k <= |s| && AllAtMost(s[..k], key)
    {
      assert s[..k + 1] == s[..k] + [s[k]];
      k := k + 1;
    }
  }

  /** Insertion adds exactly one entry, keeps the order, and leaves equal keys in arrival order. */
  lemma InsertSortedIsInsertion(s: seq<Entry>, e: Entry)
    requires Sorted(s)
    ensures Sorted(InsertSorted(s, e))
    ensures multiset(InsertSorted(s, e)) == multiset(s) + multiset{e}
    ensures exists k :: InsertedAt(s, e, k)
  {
    var k := SplitPoint(s, e.key);
    assert s == s[..k] + s[k..];
    InsertBetween(s[..k], e, s[k..]);
    assert InsertedAt(s, e, k);
    InsertedAtSorted(s, e, k);
  }

  /** Around one entry of a sorted sequence, smaller keys are left and greater ones right. */
  lemma SortedAround(b: seq<Entry>, l: seq<Entry>, e: Entry, r: seq<Entry>, a: seq<Entry>)
    requires Sorted(b + (l + [e] + r) + a)
    ensures AllAtMost(l, e.key) && AllAtLeast(r, e.key)
  {
    var s := b + (l + [e] + r) + a;
    var at := |b| + |l|;
    assert s[at] == e;
    forall x | x in l
      ensures x.key <= e.key
    {
      var i :| 0 <= i < |l| && l[i] == x;
      assert s[|b| + i] == x;
    }
    forall x | x in r
      ensures x.key >= e.key
    {
      var i :| 0 <= i < |r| && r[i] == x;
      assert s[at + 1 + i] == x;
    }
  }

  /** The search for the place of a new entry has reached subtree `t`. */
  ghost predicate Searching(p: Path, t: Tree, key: nat, contents: seq<Entry>)
  {
    && Before(p) + Entries(t) + After(p) == contents
    && AllAtMost(Before(p), key) && AllAbove(After(p), key)
  }

  /** avl_insert has reached subtree `t` of the tree under `root` on its way down. */
  ghost predicate Reached(p: Path, t: Tree, root: Node?, key: nat, contents: seq<Entry>, m: Mem)
  {
    Focus(p, t, Height(t), m) && Apex(p, Root(t)) == root && Searching(p, t, key, contents)
  }

  lemma SearchStart(t: Tree, key: nat, m: Mem)
    requires Linked(t, null, m) && Distinct(t) && Balanced(t) && m.Keys == Nodes(t)
    ensures Reached(Top, t, Root(t), key, Entries(t), m)
    ensures t.Bin? ==> t.node in m && m[t.node].entry == t.entry
  {
    assert [] + Entries(t) + [] == Entries(t);
  }

  lemma SearchStep(p: Path, t: Tree, root: Node?, key: nat, contents: seq<Entry>, m: Mem)
    requires t.Bin? && Sorted(contents) && Reached(p, t, root, key, contents, m)
    ensures t.node in m && m[t.node].entry == t.entry
    ensures forall d :: m[t.node].Link(d) == Root(Child(t, d))
    ensures var d := t.entry.key <= key;
      Reached(Step(p, t.node, t.entry, d, Child(t, !d)), Child(t, d), root, key, contents, m)
  {
    var d := t.entry.key <= key;
    Descend(p, t, d, m);
    DescendEntries(p, t, d);
    SortedAround(Before(p), Entries(t.left), t.entry, Entries(t.right), After(p));
  }

  lemma ReachedEmptyLink(p: Path, root: Node?, e: Entry, contents: seq<Entry>, m: Mem)
    requires Reached(p, Nil, root, e.key, contents, m)
    ensures Focus(p, Nil, -1, m) && Apex(p, null) == root
    ensures InsertSorted(contents, e) == Before(p) + [e] + After(p)
  {
    assert Before(p) + [] + After(p) == Before(p) + After(p);
    InsertBetween(Before(p), e, After(p));
  }

  // ---------------------------------------------------------------------------
  // Removal

  /** Exactly the entry at position `k` is gone. */
  ghost predicate RemovedAt(s: seq<Entry>, k: int, s': seq<Entry>)
  {
    0 <= k < |s| && s' == s[..k] + s[k + 1..]
  }

  ghost predicate Absent(s: seq<Entry>, key: nat) { forall e :: e in s ==> e.key != key }

  lemma RemovedAtKeeps(s: seq<Entry>, k: int, s': seq<Entry>)
    requires RemovedAt(s, k, s')
    ensures Sorted(s) ==> Sorted(s')
    ensures multiset(s) == multiset(s') + multiset{s[k]}
  {
    assert s == s[..k] + [s[k]] + s[k + 1..];
    forall i | 0 <= i < |s'|
      ensures s'[i] == if i < k then s[i] else s[i + 1]
    {
    }
  }

  /** avl_remove has reached subtree `t` on its way down. Once an equal key has been
      passed on the way to the left, the node in focus has an equal key itself. */
  ghost predicate Seeking(p: Path, t: Tree, root: Node?, key: nat, contents: seq<Entry>, m: Mem)
  {
    && Focus(p, t, Height(t), m) && Apex(p, Root(t)) == root
    && Before(p) + Entries(t) + After(p) == contents
    && AllBelow(Before(p), key)
    && (AllAbove(After(p), key) || (t.Bin? && t.entry.key == key))
  }

  lemma SeekStart(t: Tree, key: nat, m: Mem)
    requires Linked(t, null, m) && Distinct(t) && Balanced(t) && m.Keys == Nodes(t)
    ensures Seeking(Top, t, Root(t), key, Entries(t), m)
  {
    assert [] + Entries(t) + [] == Entries(t);
  }

  /** What the loop condition reads. */
  lemma SeekReadable(p: Path, t: Tree, root: Node?, key: nat, contents: seq<Entry>, m: Mem)
    requires t.Bin? && Seeking(p, t, root, key, contents, m)
    ensures t.node in m && m[t.node].entry == t.entry
    ensures m[t.node].left == Root(t.left) && m[t.node].right == Root(t.right)
    ensures forall d :: m[t.node].Link(d) == Root(Child(t, d))
    ensures t.left.Bin? ==> t.left.node in m && m[t.left.node].entry == t.left.entry
  {
    assert Linked(t.left, t.node, m);
  }

  lemma SeekStep(p: Path, t: Tree, root: Node?, key: nat, contents: seq<Entry>, m: Mem)
    requires t.Bin? && Sorted(contents) && Seeking(p, t, root, key, contents, m)
    requires t.entry.key != key || (t.left.Bin? && t.left.entry.key == key)
    ensures var d := t.entry.key < key;
      Seeking(Step(p, t.node, t.entry, d, Child(t, !d)), Child(t, d), root, key, contents, m)
  {
    var d := t.entry.key < key;
    Descend(p, t, d, m);
    DescendEntries(p, t, d);
    SortedAround(Before(p), Entries(t.left), t.entry, Entries(t.right), After(p));
  }

  lemma SeekFails(p: Path, root: Node?, key: nat, contents: seq<Entry>, m: Mem)
    requires Seeking(p, Nil, root, key, contents, m)
    ensures Absent(contents, key)
  {
    assert contents == Before(p) + After(p);
  }

  lemma SeekEnds(p: Path, t: Tree, root: Node?, key: nat, contents: seq<Entry>, m: Mem)
    requires t.Bin? && Seeking(p, t, root, key, contents, m)
    ensures Focus(p, t, Height(t), m) && Apex(p, Root(t)) == root
    ensures t.node in m && m[t.node].entry == t.entry
    ensures m[t.node].left == Root(t.left) && m[t.node].right == Root(t.right)
    ensures contents == Before(p) + Entries(t.left) + [t.entry] + (Entries(t.right) + After(p))
    ensures var at := |Before(p) + Entries(t.left)|;
      && contents[at] == t.entry
      && RemovedAt(contents, at, Before(p) + Entries(t.left) + (Entries(t.right) + After(p)))
  {
    Regroup(Before(p), Entries(t.left), [t.entry], Entries(t.right), After(p));
  }
}
