/**
 The mathematical side of the AVL tree of `avl.c`: what a linked tree looks like
 (`Tree`), the path that the explicit stacks `up[]`/`upd[]` record (`Path`), and
 the facts about rotation, height and order that the pointer code relies on.
 Nothing in this file reads the heap.
 */
module AvlShape {
  import opened Arith

  /** What the `key` pointer of a node refers to: a record whose leading
      `key_size` bytes are compared with memcmp. On byte strings of one fixed
      length memcmp is the order of their big-endian values, hence a `nat`. */
  datatype Entry = Entry(key: nat, data: nat)

  /** struct avl_node; `link[0]` and `link[1]` are `left` and `right`. */
  class Node {
    var entry: Entry
    var balance: int
    var up: Node?
    var left: Node?
    var right: Node?

    /** avl_create_node: everything but the key is zeroed. */
    constructor (e: Entry)
      ensures entry == e && balance == 0
      ensures up == null && left == null && right == null
    {
      entry, balance, up, left, right := e, 0, null, null, null;
    }

    function Link(d: bool): Node?
      reads this
    {
      if d then right else left
    }

    method SetLink(d: bool, n: Node?)
      modifies this`left, this`right
      ensures Link(d) == n && Link(!d) == old(Link(!d))
    {
      if d { right := n; } else { left := n; }
    }
  }

  datatype Tree = Nil | Bin(left: Tree, node: Node, entry: Entry, right: Tree)

  function Max(a: int, b: int): int { if a > b then a else b }

  /** The macro avl_height, on shapes: an empty link counts as -1. */
  function Height(t: Tree): (h: int)
    ensures -1 <= h && (h == -1 <==> t.Nil?)
  {
    match t
    case Nil => -1
    case Bin(l, _, _, r) => Max(Height(l), Height(r)) + 1
  }

  function Root(t: Tree): Node? { if t.Nil? then null else t.node }

  ghost function Nodes(t: Tree): set<Node>
  {
    match t
    case Nil => {}
    case Bin(l, n, _, r) => Nodes(l) + {n} + Nodes(r)
  }

  /** No node object occurs twice in the tree. */
  ghost predicate Distinct(t: Tree)
  {
    t.Bin? ==>
      && Distinct(t.left) && Distinct(t.right)
      && t.node !in Nodes(t.left) && t.node !in Nodes(t.right)
      && Nodes(t.left) !! Nodes(t.right)
  }

  ghost predicate Balanced(t: Tree)
  {
    t.Bin? ==>
      && Balanced(t.left) && Balanced(t.right)
      && -1 <= Height(t.left) - Height(t.right) <= 1
  }

  /** The stored entries, left to right. */
  ghost function Entries(t: Tree): seq<Entry>
  {
    match t
    case Nil => []
    case Bin(l, _, e, r) => Entries(l) + [e] + Entries(r)
  }

  /** The node objects, left to right. */
  ghost function InOrder(t: Tree): seq<Node>
  {
    match t
    case Nil => []
    case Bin(l, n, _, r) => InOrder(l) + [n] + InOrder(r)
  }

  /** Weak search order: equal keys may stand next to each other. */
  ghost predicate Sorted(s: seq<Entry>)
  {
    forall i, j :: 0 <= i < j < |s| ==> s[i].key <= s[j].key
  }

  ghost predicate AllBelow(s: seq<Entry>, k: nat) { forall e :: e in s ==> e.key < k }
  ghost predicate AllAtMost(s: seq<Entry>, k: nat) { forall e :: e in s ==> e.key <= k }
  ghost predicate AllAbove(s: seq<Entry>, k: nat) { forall e :: e in s ==> e.key > k }
  ghost predicate AllAtLeast(s: seq<Entry>, k: nat) { forall e :: e in s ==> e.key >= k }

  // ---------------------------------------------------------------------------
  // Rotations

  function Child(t: Tree, d: bool): Tree
    requires t.Bin?
  {
    if d then t.right else t.left
  }

  /** A node whose child on side `d` is `near` and on the other side `far`. */
  function Make(d: bool, near: Tree, n: Node, e: Entry, far: Tree): Tree
  {
    if d then Bin(far, n, e, near) else Bin(near, n, e, far)
  }

  /** The shape avl_rotate_single(root, dir) leaves. */
  function RotateSingle(t: Tree, dir: bool): Tree
    requires t.Bin? && Child(t, !dir).Bin?
  {
    var s := Child(t, !dir);
    Make(!dir, Child(s, !dir), s.node, s.entry,
         Make(dir, Child(t, dir), t.node, t.entry, Child(s, dir)))
  }

  /** The shape avl_rotate_double(root, dir) leaves. */
  function RotateDouble(t: Tree, dir: bool): Tree
    requires t.Bin? && Child(t, !dir).Bin? && Child(Child(t, !dir), dir).Bin?
  {
    RotateSingle(Make(!dir, RotateSingle(Child(t, !dir), !dir), t.node, t.entry, Child(t, dir)), dir)
  }

  /** Both walk-back loops choose the rotation this way when side `d` is two levels too high. */
  function Rebalance(t: Tree, d: bool): (s: Tree)
    requires t.Bin? && Child(t, d).Bin? && Height(Child(t, d)) >= 1
    ensures s.Bin?
  {
    var c := Child(t, d);
    if Height(Child(c, d)) >= Height(Child(c, !d)) then RotateSingle(t, !d) else RotateDouble(t, !d)
  }

  lemma MakeDistinct(d: bool, near: Tree, n: Node, e: Entry, far: Tree)
    ensures Nodes(Make(d, near, n, e, far)) == Nodes(near) + {n} + Nodes(far)
    ensures Distinct(Make(d, near, n, e, far))
       <==> Distinct(near) && Distinct(far) && n !in Nodes(near) && n !in Nodes(far) && Nodes(near) !! Nodes(far)
  {
  }

  lemma RotateSingleKeeps(t: Tree, dir: bool)
    requires t.Bin? && Child(t, !dir).Bin?
    ensures Entries(RotateSingle(t, dir)) == Entries(t)
    ensures InOrder(RotateSingle(t, dir)) == InOrder(t)
    ensures Nodes(RotateSingle(t, dir)) == Nodes(t)
    ensures Distinct(t) ==> Distinct(RotateSingle(t, dir))
  {
    var s := Child(t, !dir);
    var low := Make(dir, Child(t, dir), t.node, t.entry, Child(s, dir));
    MakeDistinct(dir, Child(t, dir), t.node, t.entry, s);
    MakeDistinct(!dir, Child(s, !dir), s.node, s.entry, Child(s, dir));
    MakeDistinct(dir, Child(t, dir), t.node, t.entry, Child(s, dir));
    MakeDistinct(!dir, Child(s, !dir), s.node, s.entry, low);
    assert t == Make(dir, Child(t, dir), t.node, t.entry, s);
    assert s == Make(!dir, Child(s, !dir), s.node, s.entry, Child(s, dir));
    if dir {
      assert t == Bin(Bin(s.left, s.node, s.entry, s.right), t.node, t.entry, t.right);
      assert Entries(s.left) + [s.entry] + Entries(s.right) + [t.entry] + Entries(t.right)
        == Entries(s.left) + [s.entry] + (Entries(s.right) + [t.entry] + Entries(t.right));
      assert InOrder(s.left) + [s.node] + InOrder(s.right) + [t.node] + InOrder(t.right)
        == InOrder(s.left) + [s.node] + (InOrder(s.right) + [t.node] + InOrder(t.right));
    } else {
      assert t == Bin(t.left, t.node, t.entry, Bin(s.left, s.node, s.entry, s.right));
      assert Entries(t.left) + [t.entry] + (Entries(s.left) + [s.entry] + Entries(s.right))
        == (Entries(t.left) + [t.entry] + Entries(s.left)) + [s.entry] + Entries(s.right);
      assert InOrder(t.left) + [t.node] + (InOrder(s.left) + [s.node] + InOrder(s.right))
        == (InOrder(t.left) + [t.node] + InOrder(s.left)) + [s.node] + InOrder(s.right);
    }
  }

  /** Rotation never changes the in-order sequence, so it can never break the search order. */
  lemma RebalanceKeeps(t: Tree, d: bool)
    requires t.Bin? && Child(t, d).Bin? && Height(Child(t, d)) >= 1
    ensures Entries(Rebalance(t, d)) == Entries(t)
    ensures InOrder(Rebalance(t, d)) == InOrder(t)
    ensures Nodes(Rebalance(t, d)) == Nodes(t)
    ensures Distinct(t) ==> Distinct(Rebalance(t, d))
  {
    var c := Child(t, d);
    if Height(Child(c, d)) >= Height(Child(c, !d)) {
      RotateSingleKeeps(t, !d);
    } else {
      RotateSingleKeeps(c, d);
      var m := Make(d, RotateSingle(c, d), t.node, t.entry, Child(t, !d));
      RotateSingleKeeps(m, !d);
    }
  }

  /** A node that is two levels higher on side `d` becomes balanced, and its
      height afterwards is one of two values; it is the lower one when the high
      child was itself uneven, which is always so after an insertion. */
  lemma RebalanceHeight(t: Tree, d: bool)
    requires t.Bin? && Balanced(t.left) && Balanced(t.right)
    requires Height(Child(t, d)) == Height(Child(t, !d)) + 2
    ensures Balanced(Rebalance(t, d))
    ensures Height(Rebalance(t, d)) == Height(Child(t, d)) || Height(Rebalance(t, d)) == Height(Child(t, d)) + 1
    ensures Height(Child(t, d).left) != Height(Child(t, d).right) ==> Height(Rebalance(t, d)) == Height(Child(t, d))
  {
    var c := Child(t, d);
    if Height(Child(c, d)) < Height(Child(c, !d)) {
      var m := Make(d, RotateSingle(c, d), t.node, t.entry, Child(t, !d));
      assert RotateDouble(t, !d) == RotateSingle(m, !d);
    }
  }

  // ---------------------------------------------------------------------------
  // How high can a balanced tree be?

  function Fib(n: nat): nat { if n < 2 then n else Fib(n - 1) + Fib(n - 2) }

  /** A balanced tree of height h holds at least Fib(h + 3) - 1 entries. */
  lemma {:induction false} SizeAtLeastFib(t: Tree)
    requires Balanced(t)
    ensures |Entries(t)| + 1 >= Fib(Height(t) + 3)
  {
    if t.Bin? {
      SizeAtLeastFib(t.left);
      SizeAtLeastFib(t.right);
      var h := Height(t);
      if h >= 1 {
        FibMonotone(h + 1, Height(t.left) + 3);
        FibMonotone(h + 1, Height(t.right) + 3);
      }
    }
  }

  lemma {:induction false} FibMonotone(m: nat, n: nat)
    requires 1 <= m <= n
    ensures Fib(m) <= Fib(n)
  {
    if m < n { FibMonotone(m, n - 1); }
  }

  lemma {:induction false} FibDoubles(k: nat)
    requires k >= 2
    ensures Fib(2 * k) > Pow2(k - 1)
  {
    if k == 2 {
      assert Fib(4) == 3;
    } else {
      FibDoubles(k - 1);
      assert Fib(2 * k) == Fib(2 * k - 1) + Fib(2 * k - 2);
      FibMonotone(2 * k - 2, 2 * k - 1);
    }
  }

  /** AVL_MAX_HEIGHT. */
  const MAX_HEIGHT := 128

  /** More nodes than this cannot be addressed by 64-bit pointers. */
  const MAX_NODES: nat := Pow2(64)

  /** So the search path of any tree that fits into memory is shorter than the two
      stacks of 128 slots. */
  lemma HeightFitsStack(t: Tree)
    requires Balanced(t) && |Entries(t)| < MAX_NODES
    ensures Height(t) + 1 < MAX_HEIGHT
  {
    HeightBelow(t, 65);
  }

  lemma HeightBelow(t: Tree, k: nat)
    requires Balanced(t) && k >= 2 && |Entries(t)| < Pow2(k - 1)
    ensures Height(t) + 3 < 2 * k
  {
    SizeAtLeastFib(t);
    if Height(t) + 3 >= 2 * k {
      FibMonotone(2 * k, Height(t) + 3);
      FibDoubles(k);
    }
  }

  // ---------------------------------------------------------------------------
  // The path from the root to the current node, as recorded by up[] and upd[]

  datatype Path = Top | Step(parent: Path, node: Node, entry: Entry, dir: bool, other: Tree)

  /** The tree obtained by hanging `t` at the end of path `p`. */
  ghost function Zip(p: Path, t: Tree): Tree
  {
    match p
    case Top => t
    case Step(q, n, e, d, o) => Zip(q, Make(d, t, n, e, o))
  }

  function Length(p: Path): nat { if p.Top? then 0 else Length(p.parent) + 1 }

  function Tip(p: Path): Node? { if p.Top? then null else p.node }

  ghost function PathNodes(p: Path): set<Node>
  {
    match p
    case Top => {}
    case Step(q, n, _, _, o) => PathNodes(q) + {n} + Nodes(o)
  }

  /** Path nodes and side trees are pairwise disjoint, and disjoint from `below`. */
  ghost predicate Separate(p: Path, below: set<Node>)
    decreases p
  {
    match p
    case Top => true
    case Step(q, n, _, _, o) =>
      && n !in below && n !in Nodes(o) && Nodes(o) !! below && Distinct(o)
      && Separate(q, below + {n} + Nodes(o))
  }

  /** The entries to the left of the hole. */
  ghost function Before(p: Path): seq<Entry>
  {
    match p
    case Top => []
    case Step(q, _, e, d, o) => if d then Before(q) + (Entries(o) + [e]) else Before(q)
  }

  /** The entries to the right of the hole. */
  ghost function After(p: Path): seq<Entry>
  {
    match p
    case Top => []
    case Step(q, _, e, d, o) => if d then After(q) else [e] + Entries(o) + After(q)
  }

  /** The path was balanced when the subtree at its end had height `h`. */
  ghost predicate BalancedPath(p: Path, h: int)
    decreases p
  {
    match p
    case Top => true
    case Step(q, _, _, _, o) =>
      && Balanced(o) && -1 <= h - Height(o) <= 1
      && BalancedPath(q, Max(h, Height(o)) + 1)
  }

  /** The two C stacks hold exactly this path. */
  ghost predicate OnStack(p: Path, up: seq<Node?>, upd: seq<bool>)
    decreases p
  {
    match p
    case Top => up == [] && upd == []
    case Step(q, n, _, d, _) =>
      && |up| == |upd| > 0
      && up[|up| - 1] == n && upd[|upd| - 1] == d
      && OnStack(q, up[..|up| - 1], upd[..|upd| - 1])
  }

  lemma PushedOnStack(p: Path, n: Node, e: Entry, d: bool, o: Tree, up: seq<Node?>, upd: seq<bool>)
    requires OnStack(p, up, upd) && |up| == |upd|
    ensures OnStack(Step(p, n, e, d, o), up + [n], upd + [d])
  {
    assert (up + [n])[..|up|] == up && (upd + [d])[..|upd|] == upd;
  }

  lemma {:induction false} ZipEntries(p: Path, t: Tree)
    ensures Entries(Zip(p, t)) == Before(p) + Entries(t) + After(p)
  {
    if p.Step? {
      var m := Make(p.dir, t, p.node, p.entry, p.other);
      ZipEntries(p.parent, m);
      var b, a, x, o := Before(p.parent), After(p.parent), Entries(t), Entries(p.other);
      if p.dir {
        assert b + (o + [p.entry] + x) + a == (b + (o + [p.entry])) + x + a;
      } else {
        assert b + (x + [p.entry] + o) + a == b + x + ([p.entry] + o + a);
      }
    }
  }

  lemma {:induction false} ZipNodes(p: Path, t: Tree)
    ensures Nodes(Zip(p, t)) == PathNodes(p) + Nodes(t)
    ensures Distinct(t) && Separate(p, Nodes(t)) ==> Distinct(Zip(p, t))
  {
    if p.Step? {
      var m := Make(p.dir, t, p.node, p.entry, p.other);
      ZipNodes(p.parent, m);
      assert Nodes(m) == Nodes(t) + {p.node} + Nodes(p.other);
    }
  }

  lemma {:induction false} SeparateMeans(p: Path, below: set<Node>)
    requires Separate(p, below)
    ensures PathNodes(p) !! below
  {
    if p.Step? { SeparateMeans(p.parent, below + {p.node} + Nodes(p.other)); }
  }

  lemma DescendEntries(p: Path, t: Tree, d: bool)
    requires t.Bin?
    ensures var q := Step(p, t.node, t.entry, d, Child(t, !d));
      Before(q) + Entries(Child(t, d)) + After(q) == Before(p) + Entries(t) + After(p)
  {
    var c, o := Child(t, d), Child(t, !d);
    var b, a := Before(p), After(p);
    if d {
      assert b + (Entries(o) + [t.entry] + Entries(c)) + a == (b + (Entries(o) + [t.entry])) + Entries(c) + a;
    } else {
      assert b + (Entries(c) + [t.entry] + Entries(o)) + a == b + Entries(c) + ([t.entry] + Entries(o) + a);
    }
  }

  lemma Regroup<T>(b: seq<T>, l: seq<T>, x: seq<T>, r: seq<T>, a: seq<T>)
    ensures b + (l + x) + r + a == b + l + (x + r + a)
    ensures b + (l + x + r) + a == b + l + x + (r + a)
  {
  }
}
