/**
 How a tree shape sits in memory. `Mem` is a snapshot of the node fields, so that
 what linkage means, and which writes disturb it, can be stated without the heap.
 */
module AvlMemory {
  import opened AvlShape

  datatype Cell = Cell(entry: Entry, balance: int, up: Node?, left: Node?, right: Node?)
  {
    function Link(d: bool): Node? { if d then right else left }
    function WithLink(d: bool, n: Node?): Cell { if d then this.(right := n) else this.(left := n) }
  }

  type Mem = map<Node, Cell>

  ghost predicate Holds(n: Node, c: Cell)
    reads n
  {
    n.entry == c.entry && n.balance == c.balance && n.up == c.up && n.left == c.left && n.right == c.right
  }

  /** The heap holds what the snapshot says. */
  ghost predicate InHeap(m: Mem)
    reads m.Keys
  {
    forall n :: n in m ==> Holds(n, m[n])
  }

  /** Entry, links and subtrees below the top node of `t` are in place; its
      stored height and its parent pointer may still be out of date. */
  ghost predicate Open(t: Tree, m: Mem)
    requires t.Bin?
  {
    && t.node in m && m[t.node].entry == t.entry
    && m[t.node].left == Root(t.left) && m[t.node].right == Root(t.right)
    && Linked(t.left, t.node, m) && Linked(t.right, t.node, m)
  }

  /** `t` is linked under the parent `up`: every stored height is the true height
      and every `up` pointer names the real parent. */
  ghost predicate Linked(t: Tree, up: Node?, m: Mem)
    decreases t
  {
    t.Bin? ==>
      && t.node in m && m[t.node].up == up && m[t.node].balance == Height(t)
      && m[t.node].entry == t.entry
      && m[t.node].left == Root(t.left) && m[t.node].right == Root(t.right)
      && Linked(t.left, t.node, m) && Linked(t.right, t.node, m)
  }

  /** The path `p` is in place above a hole that currently holds `hole`; the
      heights stored along it are those for a subtree of height `h` in the hole. */
  ghost predicate PathLinked(p: Path, hole: Node?, h: int, m: Mem)
    decreases p
  {
    match p
    case Top => true
    case Step(q, n, e, d, o) =>
      && n in m && m[n].entry == e && m[n].up == Tip(q) && m[n].balance == Max(h, Height(o)) + 1
      && m[n].Link(d) == hole && m[n].Link(!d) == Root(o) && Linked(o, n, m)
      && PathLinked(q, n, Max(h, Height(o)) + 1, m)
  }

  /** Subtree `t` at the end of path `p`, where the path was built for height `h`. */
  ghost predicate Focus(p: Path, t: Tree, h: int, m: Mem)
  {
    && Linked(t, Tip(p), m) && PathLinked(p, Root(t), h, m)
    && Distinct(t) && Separate(p, Nodes(t))
    && Balanced(t) && BalancedPath(p, h)
    && m.Keys == PathNodes(p) + Nodes(t)
  }

  /** The root of the whole tree when `hole` hangs at the end of `p`. */
  ghost function Apex(p: Path, hole: Node?): Node?
  {
    if p.Top? then hole else Apex(p.parent, p.node)
  }

  ghost predicate SameOn(s: set<Node>, m: Mem, m': Mem)
  {
    forall n :: n in s ==> n in m && n in m' && m[n] == m'[n]
  }

  lemma {:induction false} FrameLinked(t: Tree, up: Node?, m: Mem, m': Mem)
    requires Linked(t, up, m) && SameOn(Nodes(t), m, m')
    ensures Linked(t, up, m')
  {
    if t.Bin? {
      FrameLinked(t.left, t.node, m, m');
      FrameLinked(t.right, t.node, m, m');
    }
  }

  lemma {:induction false} FramePath(p: Path, hole: Node?, h: int, m: Mem, m': Mem)
    requires PathLinked(p, hole, h, m) && SameOn(PathNodes(p), m, m')
    ensures PathLinked(p, hole, h, m')
  {
    if p.Step? {
      FrameLinked(p.other, p.node, m, m');
      FramePath(p.parent, p.node, Max(h, Height(p.other)) + 1, m, m');
    }
  }

  /** A subtree hung under another parent: only the `up` field of its top node differs. */
  lemma Rehang(t: Tree, up: Node?, m: Mem, m': Mem)
    requires t.Bin? && Linked(t, up, m) && Distinct(t)
    requires t.node in m' && SameOn(Nodes(t) - {t.node}, m, m')
    requires exists up' :: m'[t.node] == m[t.node].(up := up')
    ensures Linked(t, m'[t.node].up, m')
  {
    FrameLinked(t.left, t.node, m, m');
    FrameLinked(t.right, t.node, m, m');
  }

  /** Exchanging what hangs at the end of a path: one link field of its last node differs. */
  lemma Replug(p: Path, hole: Node?, hole': Node?, h: int, below: set<Node>, m: Mem, m': Mem)
    requires p.Step? && PathLinked(p, hole, h, m) && Separate(p, below)
    requires p.node in m' && m'[p.node] == m[p.node].WithLink(p.dir, hole')
    requires SameOn(PathNodes(p) - {p.node}, m, m')
    ensures PathLinked(p, hole', h, m')
  {
    SeparateMeans(p.parent, below + {p.node} + Nodes(p.other));
    FrameLinked(p.other, p.node, m, m');
    FramePath(p.parent, p.node, Max(h, Height(p.other)) + 1, m, m');
  }

  /** One step down the tree moves the focus to a child. */
  lemma Descend(p: Path, t: Tree, d: bool, m: Mem)
    requires t.Bin? && Focus(p, t, Height(t), m)
    ensures var q := Step(p, t.node, t.entry, d, Child(t, !d));
      && Focus(q, Child(t, d), Height(Child(t, d)), m)
      && Before(q) + Entries(Child(t, d)) + After(q) == Before(p) + Entries(t) + After(p)
      && Zip(q, Child(t, d)) == Zip(p, t)
  {
    hide Linked, PathLinked, Distinct, Separate, Nodes, PathNodes, Entries, Before, After;
    DescendEntries(p, t, d);
    DescendLinked(p, t, d, m);
    DescendSeparate(p, t, d);
  }

  lemma DescendLinked(p: Path, t: Tree, d: bool, m: Mem)
    requires t.Bin? && Linked(t, Tip(p), m) && PathLinked(p, Root(t), Height(t), m)
    ensures Linked(Child(t, d), t.node, m)
    ensures PathLinked(Step(p, t.node, t.entry, d, Child(t, !d)), Root(Child(t, d)), Height(Child(t, d)), m)
  {
  }

  lemma DescendSeparate(p: Path, t: Tree, d: bool)
    requires t.Bin? && Distinct(t) && Separate(p, Nodes(t))
    ensures var q := Step(p, t.node, t.entry, d, Child(t, !d));
      && Distinct(Child(t, d)) && Separate(q, Nodes(Child(t, d)))
      && PathNodes(q) + Nodes(Child(t, d)) == PathNodes(p) + Nodes(t)
  {
    assert Nodes(Child(t, d)) + {t.node} + Nodes(Child(t, !d)) == Nodes(t);
  }

  /** Closing the path again gives a tree that is linked from its root. */
  lemma {:induction false} Close(p: Path, t: Tree, m: Mem)
    requires Focus(p, t, Height(t), m)
    ensures var s := Zip(p, t);
      && Linked(s, null, m) && Distinct(s) && Balanced(s) && Root(s) == Apex(p, Root(t))
      && Entries(s) == Before(p) + Entries(t) + After(p)
      && m.Keys == Nodes(s)
  {
    ZipEntries(p, t);
    ZipNodes(p, t);
    if p.Step? {
      var q := Make(p.dir, t, p.node, p.entry, p.other);
      MakeDistinct(p.dir, t, p.node, p.entry, p.other);
      Close(p.parent, q, m);
    }
  }

  // ---------------------------------------------------------------------------
  // What the field writes of a rotation amount to

  ghost function HeightIn(m: Mem, n: Node?): int
    requires n == null || n in m
  {
    if n == null then -1 else m[n].balance
  }

  ghost predicate Rotatable(m: Mem, n: Node, dir: bool)
  {
    && n in m && m[n].Link(!dir) != null
    && var s: Node := m[n].Link(!dir);
    && s in m && n != s
    && var outer, inner, near := m[s].Link(!dir), m[s].Link(dir), m[n].Link(dir);
    && (inner != null ==> inner in m && inner !in {n, s, outer, near})
    && (outer != null ==> outer in m && outer !in {n, s})
    && (near != null ==> near in m && near !in {n, s})
  }

  /** The memory after avl_rotate_single(n, dir). */
  ghost function SingleCells(m: Mem, n: Node, dir: bool): (m': Mem)
    requires Rotatable(m, n, dir)
    ensures m'.Keys == m.Keys
  {
    var s: Node := m[n].Link(!dir);
    var outer, inner, near := m[s].Link(!dir), m[s].Link(dir), m[n].Link(dir);
    var low := Max(HeightIn(m, near), HeightIn(m, inner)) + 1;
    var cn := m[n].WithLink(!dir, inner).(up := s, balance := low);
    var cs := m[s].WithLink(dir, n).(balance := Max(HeightIn(m, outer), low) + 1);
    map x | x in m ::
      if x == n then cn else if x == s then cs else if x == inner then m[x].(up := n) else m[x]
  }

  /** `top` points up to `parent`, whose link on side `pd`, if it is a node, points back. */
  ghost function HungCells(m: Mem, top: Node, parent: Node?, pd: bool): (m': Mem)
    ensures m'.Keys == m.Keys
  {
    map x | x in m ::
      var cell := if x == top then m[x].(up := parent) else m[x];
      if x == parent then cell.WithLink(pd, top) else cell
  }

  ghost predicate DoubleRotatable(m: Mem, n: Node, dir: bool)
  {
    && n in m && m[n].Link(!dir) != null
    && Rotatable(m, m[n].Link(!dir), !dir)
    && n !in {m[n].Link(!dir), m[m[n].Link(!dir)].Link(dir)}
    && Rotatable(HalfDoubleCells(m, n, dir), n, dir)
  }

  /** The memory in the middle of avl_rotate_double(n, dir). */
  ghost function HalfDoubleCells(m: Mem, n: Node, dir: bool): (m': Mem)
    requires n in m && m[n].Link(!dir) != null && Rotatable(m, m[n].Link(!dir), !dir)
    ensures m'.Keys == m.Keys
  {
    var c: Node := m[n].Link(!dir);
    HungCells(SingleCells(m, c, !dir), m[c].Link(dir), n, !dir)
  }

  /** The memory after avl_rotate_double(n, dir). */
  ghost function DoubleCells(m: Mem, n: Node, dir: bool): (m': Mem)
    requires DoubleRotatable(m, n, dir)
    ensures m'.Keys == m.Keys
  {
    SingleCells(HalfDoubleCells(m, n, dir), n, dir)
  }

  lemma OpenRotatable(t: Tree, dir: bool, m: Mem)
    requires t.Bin? && Child(t, !dir).Bin? && Distinct(t) && Open(t, m)
    ensures Rotatable(m, t.node, dir)
  {
    var s := Child(t, !dir);
    var outer, inner, near := Child(s, !dir), Child(s, dir), Child(t, dir);
    assert Linked(s, t.node, m) && Linked(near, t.node, m) && Linked(outer, s.node, m) && Linked(inner, s.node, m);
  }

  lemma SingleParts(t: Tree, dir: bool, m: Mem)
    requires t.Bin? && Child(t, !dir).Bin? && Distinct(t) && Open(t, m) && Rotatable(m, t.node, dir)
    ensures var s, m' := Child(t, !dir), SingleCells(m, t.node, dir);
      && Linked(Child(t, dir), t.node, m') && Linked(Child(s, dir), t.node, m')
      && Linked(Child(s, !dir), s.node, m')
      && SameOn(m.Keys - Nodes(t), m, m')
  {
    var m' := SingleCells(m, t.node, dir);
    var s := Child(t, !dir);
    var outer, inner, near := Child(s, !dir), Child(s, dir), Child(t, dir);
    MakeDistinct(dir, near, t.node, t.entry, s);
    MakeDistinct(!dir, outer, s.node, s.entry, inner);
    assert t == Make(dir, near, t.node, t.entry, s) && s == Make(!dir, outer, s.node, s.entry, inner);
    assert Linked(s, t.node, m) && Linked(near, t.node, m);
    LinkedNodes(near, t.node, m);
    LinkedNodes(s, t.node, m);
    FrameLinked(near, t.node, m, m');
    FrameLinked(outer, s.node, m, m');
    if inner.Bin? { Rehang(inner, s.node, m, m'); }
  }

  lemma SingleRotation(t: Tree, dir: bool, m: Mem)
    requires t.Bin? && Child(t, !dir).Bin? && Distinct(t) && Open(t, m) && Rotatable(m, t.node, dir)
    ensures var r, m' := RotateSingle(t, dir), SingleCells(m, t.node, dir);
      && Open(r, m') && m'[r.node].balance == Height(r)
      && SameOn(m.Keys - Nodes(t), m, m')
  {
    SingleParts(t, dir, m);
    var m', s := SingleCells(m, t.node, dir), Child(t, !dir);
    assert Linked(Child(t, dir), t.node, m) && Linked(s, t.node, m)
      && Linked(Child(s, dir), s.node, m) && Linked(Child(s, !dir), s.node, m);
    var low := Make(dir, Child(t, dir), t.node, t.entry, Child(s, dir));
    assert m'[t.node].balance == Height(low);
    assert Linked(low, s.node, m');
  }

  lemma {:induction false} LinkedNodes(t: Tree, up: Node?, m: Mem)
    requires Linked(t, up, m)
    ensures Nodes(t) <= m.Keys
  {
    if t.Bin? {
      LinkedNodes(t.left, t.node, m);
      LinkedNodes(t.right, t.node, m);
    }
  }

  lemma DoubleRotation(t: Tree, dir: bool, m: Mem)
    requires t.Bin? && Child(t, !dir).Bin? && Child(Child(t, !dir), dir).Bin? && Distinct(t) && Open(t, m)
    ensures DoubleRotatable(m, t.node, dir)
    ensures var r, m' := RotateDouble(t, dir), DoubleCells(m, t.node, dir);
      && Open(r, m') && m'[r.node].balance == Height(r)
      && SameOn(m.Keys - Nodes(t), m, m')
      && r.node == HalfDoubleCells(m, t.node, dir)[t.node].Link(!dir)
  {
    var c, near := Child(t, !dir), Child(t, dir);
    var r := RotateSingle(c, !dir);
    MakeDistinct(dir, near, t.node, t.entry, c);
    assert t == Make(dir, near, t.node, t.entry, c);
    assert Linked(c, t.node, m) && Linked(near, t.node, m);
    LinkedNodes(near, t.node, m);
    LinkedNodes(c, t.node, m);
    OpenRotatable(c, !dir, m);
    HalfDouble(t, dir, m);
    var u := Make(!dir, r, t.node, t.entry, near);
    RotateSingleKeeps(c, !dir);
    MakeDistinct(!dir, r, t.node, t.entry, near);
    var m2 := HalfDoubleCells(m, t.node, dir);
    OpenRotatable(u, dir, m2);
    SingleRotation(u, dir, m2);
  }

  /** In the middle of a double rotation the tree is linked again, one level differently. */
  lemma HalfDouble(t: Tree, dir: bool, m: Mem)
    requires t.Bin? && Child(t, !dir).Bin? && Child(Child(t, !dir), dir).Bin? && Distinct(t) && Open(t, m)
    requires Rotatable(m, Child(t, !dir).node, !dir)
    ensures var m2 := HalfDoubleCells(m, t.node, dir);
      && Open(Make(!dir, RotateSingle(Child(t, !dir), !dir), t.node, t.entry, Child(t, dir)), m2)
      && SameOn(m.Keys - Nodes(t), m, m2)
  {
    var c, near := Child(t, !dir), Child(t, dir);
    MakeDistinct(dir, near, t.node, t.entry, c);
    assert t == Make(dir, near, t.node, t.entry, c);
    assert Linked(c, t.node, m) && Linked(near, t.node, m);
    RotateSingleKeeps(c, !dir);
    SingleRotation(c, !dir, m);
    var r, m1 := RotateSingle(c, !dir), SingleCells(m, c.node, !dir);
    LinkedNodes(near, t.node, m);
    FrameLinked(near, t.node, m, m1);
    assert m1[t.node] == m[t.node];
    HungOpen(r, t.node, t.entry, !dir, near, m1);
  }

  /** Hanging a rotated subtree under `n` on side `d`. */
  lemma HungOpen(r: Tree, n: Node, e: Entry, d: bool, o: Tree, m: Mem)
    requires r.Bin? && Open(r, m) && m[r.node].balance == Height(r) && Distinct(Make(d, r, n, e, o))
    requires n in m && m[n].entry == e && m[n].Link(!d) == Root(o) && Linked(o, n, m)
    ensures Open(Make(d, r, n, e, o), HungCells(m, r.node, n, d))
    ensures SameOn(m.Keys - {r.node, n}, m, HungCells(m, r.node, n, d))
  {
    var m' := HungCells(m, r.node, n, d);
    MakeDistinct(d, r, n, e, o);
    MakeDistinct(true, r.right, r.node, r.entry, r.left);
    LinkedNodes(o, n, m);
    FrameLinked(o, n, m, m');
    LinkedNodes(r.left, r.node, m);
    LinkedNodes(r.right, r.node, m);
    FrameLinked(r.left, r.node, m, m');
    FrameLinked(r.right, r.node, m, m');
    assert Linked(r, n, m');
  }

  /** Hanging a rotated tree at the end of the path above it. */
  lemma HungLinked(s: Tree, q: Path, hole: Node?, h: int, pd: bool, m: Mem)
    requires s.Bin? && Open(s, m) && m[s.node].balance == Height(s) && Distinct(s)
    requires Separate(q, Nodes(s)) && PathLinked(q, hole, h, m) && (q.Step? ==> pd == q.dir)
    requires m.Keys == PathNodes(q) + Nodes(s)
    ensures Linked(s, Tip(q), HungCells(m, s.node, Tip(q), pd))
    ensures PathLinked(q, s.node, h, HungCells(m, s.node, Tip(q), pd))
  {
    var m' := HungCells(m, s.node, Tip(q), pd);
    SeparateMeans(q, Nodes(s));
    MakeDistinct(true, s.right, s.node, s.entry, s.left);
    assert s == Make(true, s.right, s.node, s.entry, s.left);
    FrameLinked(s.left, s.node, m, m');
    FrameLinked(s.right, s.node, m, m');
    if q.Step? { Replug(q, hole, s.node, h, Nodes(s), m, m'); }
  }

  // ---------------------------------------------------------------------------
  // Rebalancing node n, whose side d is two levels too high

  ghost predicate Rebalanceable(m: Mem, n: Node, d: bool, parent: Node?)
  {
    && n in m && m[n].Link(d) != null
    && var c: Node := m[n].Link(d);
    && c in m && (parent != null ==> parent in m)
    && (forall b: bool :: m[c].Link(b) != null ==> m[c].Link(b) in m)
    && (if HeightIn(m, m[c].Link(d)) >= HeightIn(m, m[c].Link(!d))
        then Rotatable(m, n, !d) else DoubleRotatable(m, n, !d))
  }

  ghost function RotatedTop(m: Mem, n: Node, d: bool, parent: Node?): (top: Node)
    requires Rebalanceable(m, n, d, parent)
    ensures top in m
  {
    var c: Node := m[n].Link(d);
    if HeightIn(m, m[c].Link(d)) >= HeightIn(m, m[c].Link(!d))
    then c else HalfDoubleCells(m, n, !d)[n].Link(d)
  }

  ghost function RotatedCells(m: Mem, n: Node, d: bool, parent: Node?): (m': Mem)
    requires Rebalanceable(m, n, d, parent)
    ensures m'.Keys == m.Keys
  {
    var c: Node := m[n].Link(d);
    if HeightIn(m, m[c].Link(d)) >= HeightIn(m, m[c].Link(!d))
    then SingleCells(m, n, !d) else DoubleCells(m, n, !d)
  }

  /** The memory after rotating at `n` and pointing `parent`, if any, at the new top node. */
  ghost function RebalanceCells(m: Mem, n: Node, d: bool, parent: Node?, pd: bool): (m': Mem)
    requires Rebalanceable(m, n, d, parent)
    ensures m'.Keys == m.Keys
  {
    HungCells(RotatedCells(m, n, d, parent), RotatedTop(m, n, d, parent), parent, pd)
  }

  lemma RebalanceRotates(t: Tree, d: bool, parent: Node?, m: Mem)
    requires t.Bin? && Distinct(t) && Open(t, m) && (parent != null ==> parent in m)
    requires Height(Child(t, d)) == Height(Child(t, !d)) + 2
    ensures Rebalanceable(m, t.node, d, parent)
    ensures var s, r := Rebalance(t, d), RotatedCells(m, t.node, d, parent);
      && RotatedTop(m, t.node, d, parent) == s.node
      && Open(s, r) && r[s.node].balance == Height(s) && SameOn(m.Keys - Nodes(t), m, r)
  {
    var c := Child(t, d);
    assert Linked(c, t.node, m);
    assert Linked(c.left, c.node, m) && Linked(c.right, c.node, m);
    if Height(Child(c, d)) >= Height(Child(c, !d)) {
      OpenRotatable(t, !d, m);
      SingleRotation(t, !d, m);
    } else {
      DoubleRotation(t, !d, m);
    }
  }

  lemma RebalanceLinked(t: Tree, d: bool, q: Path, h: int, pd: bool, m: Mem)
    requires t.Bin? && Distinct(t) && Separate(q, Nodes(t)) && (q.Step? ==> pd == q.dir)
    requires Height(Child(t, d)) == Height(Child(t, !d)) + 2
    requires m.Keys == PathNodes(q) + Nodes(t) && Open(t, m) && PathLinked(q, t.node, h, m)
    ensures Rebalanceable(m, t.node, d, Tip(q)) && RotatedTop(m, t.node, d, Tip(q)) == Rebalance(t, d).node
    ensures var m' := RebalanceCells(m, t.node, d, Tip(q), pd);
      Linked(Rebalance(t, d), Tip(q), m') && PathLinked(q, Rebalance(t, d).node, h, m')
  {
    RebalanceRotates(t, d, Tip(q), m);
    RebalanceKeeps(t, d);
    SeparateMeans(q, Nodes(t));
    var r := RotatedCells(m, t.node, d, Tip(q));
    FramePath(q, t.node, h, m, r);
    HungLinked(Rebalance(t, d), q, t.node, h, pd, r);
  }
}
