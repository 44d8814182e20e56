/** One iteration of the walk back up the search path, after insertion and after removal. */
module AvlRetrace {
  import opened AvlMemory
  import opened AvlShape

  /** Grown by one level: either a fresh leaf, or one child is now higher than the other. */
  ghost predicate Uneven(t: Tree)
  {
    t.Bin? && (Height(t.left) != Height(t.right) || Height(t) == 0)
  }

  /** The in-order contents around and inside the focus. */
  ghost function Whole(p: Path, t: Tree): seq<Entry>
  {
    Before(p) + Entries(t) + After(p)
  }

  ghost function HeightAbove(p: Path, h: int): int
    requires p.Step?
  {
    Max(h, Height(p.other)) + 1
  }

  ghost function Node1(p: Path, t: Tree): Tree
    requires p.Step?
  {
    Make(p.dir, t, p.node, p.entry, p.other)
  }

  /** What the loops read at the last node of the path. */
  ghost predicate Readable(p: Path, t: Tree, m: Mem)
    requires p.Step?
  {
    && p.node in m && m[p.node].Link(p.dir) == Root(t) && m[p.node].Link(!p.dir) == Root(p.other)
    && (t.Bin? ==> t.node in m && m[t.node].balance == Height(t))
    && (p.other.Bin? ==> p.other.node in m && m[p.other.node].balance == Height(p.other))
    && (p.parent.Step? ==> p.parent.node in m)
  }

  lemma PathReadable(p: Path, t: Tree, h: int, m: Mem)
    requires p.Step? && Focus(p, t, h, m)
    ensures Readable(p, t, m)
  {
    if p.parent.Step? {
      assert PathLinked(p.parent, p.node, HeightAbove(p, h), m);
    }
  }

  lemma FocusReadable(p: Path, t: Tree, h: int, m: Mem)
    requires p.Step? && Focus(p, t, h, m)
    ensures Distinct(Node1(p, t)) && Separate(p.parent, Nodes(Node1(p, t)))
    ensures Open(Node1(p, t), m) && PathLinked(p.parent, p.node, HeightAbove(p, h), m)
    ensures BalancedPath(p.parent, HeightAbove(p, h)) && Balanced(p.other) && -1 <= h - Height(p.other) <= 1
    ensures m.Keys == PathNodes(p.parent) + Nodes(Node1(p, t))
  {
    MakeDistinct(p.dir, t, p.node, p.entry, p.other);
  }

  lemma WholeAbove(p: Path, t: Tree)
    requires p.Step?
    ensures Whole(p.parent, Node1(p, t)) == Whole(p, t)
  {
    DescendEntries(p.parent, Node1(p, t), p.dir);
  }

  /** The stored height of the last path node is brought up to date. */
  ghost function Rebalanced(p: Path, t: Tree, m: Mem): (m': Mem)
    requires p.Step? && p.node in m
    ensures m'.Keys == m.Keys
  {
    m[p.node := m[p.node].(balance := Max(Height(t), Height(p.other)) + 1)]
  }

  lemma UpdateHeight(p: Path, t: Tree, h: int, m: Mem)
    requires p.Step? && Focus(p, t, h, m) && -1 <= Height(t) - Height(p.other) <= 1
    ensures p.node in m
    ensures Focus(p.parent, Node1(p, t), HeightAbove(p, h), Rebalanced(p, t, m))
  {
    FocusReadable(p, t, h, m);
    var m' := Rebalanced(p, t, m);
    SeparateMeans(p.parent, Nodes(Node1(p, t)));
    MakeDistinct(p.dir, t, p.node, p.entry, p.other);
    LinkedNodes(t, p.node, m);
    LinkedNodes(p.other, p.node, m);
    FrameLinked(t, p.node, m, m');
    FrameLinked(p.other, p.node, m, m');
    FramePath(p.parent, p.node, HeightAbove(p, h), m, m');
  }

  /** Rotating at the last path node, which side `d` overtops by two levels. */
  lemma RotateHeight(p: Path, t: Tree, h: int, d: bool, pd: bool, m: Mem)
    requires p.Step? && Distinct(Node1(p, t)) && Separate(p.parent, Nodes(Node1(p, t)))
    requires Open(Node1(p, t), m) && PathLinked(p.parent, p.node, HeightAbove(p, h), m)
    requires m.Keys == PathNodes(p.parent) + Nodes(Node1(p, t))
    requires Balanced(t) && Balanced(p.other) && BalancedPath(p.parent, HeightAbove(p, h))
    requires p.parent.Step? ==> pd == p.parent.dir
    requires Height(Child(Node1(p, t), d)) == Height(Child(Node1(p, t), !d)) + 2
    ensures Rebalanceable(m, p.node, d, Tip(p.parent))
    ensures var s, m' := Rebalance(Node1(p, t), d), RebalanceCells(m, p.node, d, Tip(p.parent), pd);
      && RotatedTop(m, p.node, d, Tip(p.parent)) == s.node
      && Focus(p.parent, s, HeightAbove(p, h), m')
      && Whole(p.parent, s) == Whole(p, t)
  {
    WholeAbove(p, t);
    var u := Node1(p, t);
    RebalanceLinked(u, d, p.parent, HeightAbove(p, h), pd, m);
    RebalanceKeeps(u, d);
    RebalanceHeight(u, d);
  }

  // ---------------------------------------------------------------------------
  // After insertion

  /** Either the subtree in focus has just grown by one level, or all heights are right. */
  ghost predicate Inserting(p: Path, t: Tree, h: int, done: bool, root: Node?, m: Mem)
  {
    && Focus(p, t, h, m) && Apex(p, Root(t)) == root
    && (if done then Height(t) == h else Height(t) == h + 1 && Uneven(t))
  }

  lemma InsertUpEven(p: Path, t: Tree, h: int, root: Node?, m: Mem)
    requires p.Step? && Inserting(p, t, h, false, root, m)
    ensures Readable(p, t, m)
    ensures 0 <= Height(t) - Height(p.other) <= 2
    ensures Height(t) - Height(p.other) < 2 ==>
      && Inserting(p.parent, Node1(p, t), HeightAbove(p, h), Height(t) == Height(p.other), root, Rebalanced(p, t, m))
      && Whole(p.parent, Node1(p, t)) == Whole(p, t)
  {
    PathReadable(p, t, h, m);
    WholeAbove(p, t);
    if Height(t) - Height(p.other) < 2 { UpdateHeight(p, t, h, m); }
  }

  lemma InsertUpRotate(p: Path, t: Tree, h: int, pd: bool, root: Node?, m: Mem)
    requires p.Step? && Inserting(p, t, h, false, root, m) && (p.parent.Step? ==> pd == p.parent.dir)
    requires Height(t) - Height(p.other) == 2
    ensures Rebalanceable(m, p.node, p.dir, Tip(p.parent))
    ensures var s, m' := Rebalance(Node1(p, t), p.dir), RebalanceCells(m, p.node, p.dir, Tip(p.parent), pd);
      && RotatedTop(m, p.node, p.dir, Tip(p.parent)) == s.node
      && Inserting(p.parent, s, HeightAbove(p, h), true, if p.parent.Top? then s.node else root, m')
      && Whole(p.parent, s) == Whole(p, t)
      && ChildHeights(s, m')
  {
    FocusReadable(p, t, h, m);
    RotateHeight(p, t, h, p.dir, pd, m);
    ApexAbove(p, Root(t), Rebalance(Node1(p, t), p.dir).node);
    InsertRotateHeight(p, t, h);
    LinkedChildHeights(Rebalance(Node1(p, t), p.dir), Tip(p.parent),
                       RebalanceCells(m, p.node, p.dir, Tip(p.parent), pd));
  }

  /** After an insertion the rotation restores the old height. */
  lemma InsertRotateHeight(p: Path, t: Tree, h: int)
    requires p.Step? && Balanced(t) && Balanced(p.other) && Uneven(t)
    requires Height(t) == h + 1 == Height(p.other) + 2
    ensures Height(Rebalance(Node1(p, t), p.dir)) == HeightAbove(p, h)
  {
    RebalanceHeight(Node1(p, t), p.dir);
  }

  lemma ApexAbove(p: Path, hole: Node?, hole': Node?)
    requires p.Step?
    ensures Apex(p.parent, hole') == if p.parent.Top? then hole' else Apex(p, hole)
  {
    assert Apex(p, hole) == Apex(p.parent, p.node);
  }

  lemma LinkedChildHeights(s: Tree, up: Node?, m: Mem)
    requires s.Bin? && Linked(s, up, m)
    ensures ChildHeights(s, m)
  {
    assert Linked(s.left, s.node, m) && Linked(s.right, s.node, m);
  }

  /** The stored height of the top node of `s` agrees with those of its children. */
  ghost predicate ChildHeights(s: Tree, m: Mem)
    requires s.Bin?
  {
    && s.node in m
    && (m[s.node].left != null ==> m[s.node].left in m) && (m[s.node].right != null ==> m[s.node].right in m)
    && m[s.node].balance == Max(HeightIn(m, m[s.node].left), HeightIn(m, m[s.node].right)) + 1
  }

  lemma InsertingEnds(p: Path, t: Tree, h: int, done: bool, root: Node?, m: Mem)
    requires Inserting(p, t, h, done, root, m) && (done || p.Top?)
    ensures Focus(p, t, Height(t), m) && Apex(p, Root(t)) == root
  {
  }

  // ---------------------------------------------------------------------------
  // After removal

  /** The subtree in focus has the height the path was built for, or is one level lower. */
  ghost predicate Removing(p: Path, t: Tree, h: int, done: bool, root: Node?, m: Mem)
  {
    && Focus(p, t, h, m) && Apex(p, Root(t)) == root
    && (if done then Height(t) == h else h - 1 <= Height(t) <= h)
  }

  lemma RemoveUpEven(p: Path, t: Tree, h: int, root: Node?, m: Mem)
    requires p.Step? && Removing(p, t, h, false, root, m)
    ensures Readable(p, t, m) && -2 <= Height(t) - Height(p.other) <= 1
    ensures Height(t) - Height(p.other) >= -1 ==>
      && Removing(p.parent, Node1(p, t), HeightAbove(p, h), Height(t) - Height(p.other) == -1, root,
                  Rebalanced(p, t, m))
      && Whole(p.parent, Node1(p, t)) == Whole(p, t)
  {
    PathReadable(p, t, h, m);
    WholeAbove(p, t);
    if Height(t) - Height(p.other) >= -1 { UpdateHeight(p, t, h, m); }
  }

  lemma UpdateOpen(p: Path, t: Tree, h: int, m: Mem)
    requires p.Step? && Focus(p, t, h, m) && p.node in m
    ensures Open(Node1(p, t), Rebalanced(p, t, m))
    ensures PathLinked(p.parent, p.node, HeightAbove(p, h), Rebalanced(p, t, m))
  {
    FocusReadable(p, t, h, m);
    var m' := Rebalanced(p, t, m);
    SeparateMeans(p.parent, Nodes(Node1(p, t)));
    MakeDistinct(p.dir, t, p.node, p.entry, p.other);
    LinkedNodes(t, p.node, m);
    LinkedNodes(p.other, p.node, m);
    FrameLinked(t, p.node, m, m');
    FrameLinked(p.other, p.node, m, m');
    FramePath(p.parent, p.node, HeightAbove(p, h), m, m');
  }

  lemma RemoveUpRotate(p: Path, t: Tree, h: int, pd: bool, root: Node?, m: Mem)
    requires p.Step? && p.node in m && Removing(p, t, h, false, root, m) && (p.parent.Step? ==> pd == p.parent.dir)
    requires Height(t) - Height(p.other) == -2
    ensures var m1 := Rebalanced(p, t, m);
      && Rebalanceable(m1, p.node, !p.dir, Tip(p.parent))
      && var s, m' := Rebalance(Node1(p, t), !p.dir), RebalanceCells(m1, p.node, !p.dir, Tip(p.parent), pd);
      && RotatedTop(m1, p.node, !p.dir, Tip(p.parent)) == s.node
      && Removing(p.parent, s, HeightAbove(p, h), false, if p.parent.Top? then s.node else root, m')
      && Whole(p.parent, s) == Whole(p, t)
  {
    FocusReadable(p, t, h, m);
    UpdateOpen(p, t, h, m);
    RotateHeight(p, t, h, !p.dir, pd, Rebalanced(p, t, m));
    ApexAbove(p, Root(t), Rebalance(Node1(p, t), !p.dir).node);
    RemoveRotateHeight(p, t, h);
  }

  lemma RemoveRotateHeight(p: Path, t: Tree, h: int)
    requires p.Step? && Balanced(t) && Balanced(p.other)
    requires Height(t) == h - 1 && Height(p.other) == h + 1
    ensures var s := Rebalance(Node1(p, t), !p.dir);
      HeightAbove(p, h) - 1 <= Height(s) <= HeightAbove(p, h)
  {
    RebalanceHeight(Node1(p, t), !p.dir);
  }

  lemma RemovingEnds(p: Path, t: Tree, h: int, done: bool, root: Node?, m: Mem)
    requires Removing(p, t, h, done, root, m) && (done || p.Top?)
    ensures Focus(p, t, Height(t), m) && Apex(p, Root(t)) == root
  {
  }

  // ---------------------------------------------------------------------------
  // Where the walks start

  /** A fresh leaf in the empty link at the end of the path. */
  ghost function LeafCells(m: Mem, it: Node, d: bool, n: Node, e: Entry): Mem
    requires it in m
  {
    m[it := m[it].WithLink(d, n)][n := Cell(e, 0, it, null, null)]
  }

  lemma LeafNodes(n: Node, e: Entry)
    ensures Nodes(Bin(Nil, n, e, Nil)) == {n} && {} + {n} == {n}
  {
  }

  lemma HangLeaf(p: Path, n: Node, e: Entry, root: Node?, m: Mem)
    requires p.Step? && Focus(p, Nil, -1, m) && Apex(p, null) == root && n !in m
    ensures p.node in m
    ensures Inserting(p, Bin(Nil, n, e, Nil), -1, false, root, LeafCells(m, p.node, p.dir, n, e))
    ensures Whole(p, Bin(Nil, n, e, Nil)) == Before(p) + [e] + After(p)
  {
    var m' := LeafCells(m, p.node, p.dir, n, e);
    var t := Bin(Nil, n, e, Nil);
    assert Linked(t, p.node, m');
    LeafNodes(n, e);
    assert m'.Keys == m.Keys + {n} && m.Keys == PathNodes(p) + Nodes(Nil);
    SeparateMeans(p, {});
    SeparateGrows(p, {}, {n});
    Replug(p, null, n, -1, {}, m, m');
    assert Entries(t) == [e];
  }

  lemma {:induction false} SeparateGrows(p: Path, below: set<Node>, more: set<Node>)
    requires Separate(p, below) && PathNodes(p) !! more
    ensures Separate(p, below + more)
  {
    if p.Step? {
      SeparateGrows(p.parent, below + {p.node} + Nodes(p.other), more);
      assert below + more + {p.node} + Nodes(p.other) == below + {p.node} + Nodes(p.other) + more;
    }
  }

  /** `it` is taken out; its only child, if any, takes its place under `parent`. */
  ghost function UnlinkCells(m: Mem, it: Node, child: Node?, parent: Node?, pd: bool): Mem
  {
    map x | x in m && x != it ::
      var cell := if x == child then m[x].(up := parent) else m[x];
      if x == parent then cell.WithLink(pd, child) else cell
  }

  /** A node with at most one child is replaced by that child. */
  lemma UnlinkNode(p: Path, t: Tree, dir: bool, pd: bool, root: Node?, m: Mem)
    requires t.Bin? && Child(t, !dir).Nil? && Focus(p, t, Height(t), m) && Apex(p, Root(t)) == root
    requires p.Step? ==> pd == p.dir
    ensures var c, m' := Child(t, dir), UnlinkCells(m, t.node, Root(Child(t, dir)), Tip(p), pd);
      Removing(p, c, Height(t), false, if p.Top? then Root(c) else root, m')
    ensures m.Keys == UnlinkCells(m, t.node, Root(Child(t, dir)), Tip(p), pd).Keys + {t.node}
  {
    var c := Child(t, dir);
    MakeDistinct(dir, c, t.node, t.entry, Nil);
    assert t == Make(dir, c, t.node, t.entry, Nil);
    UnlinkLinks(p, t, dir, pd, m);
    SeparateMeans(p, Nodes(t));
    SeparateShrinks(p, Nodes(t), Nodes(c));
    assert Root(c) == null || Root(c) in m;
  }

  lemma UnlinkLinks(p: Path, t: Tree, dir: bool, pd: bool, m: Mem)
    requires t.Bin? && Child(t, !dir).Nil? && Focus(p, t, Height(t), m)
    requires p.Step? ==> pd == p.dir
    ensures var c, m' := Child(t, dir), UnlinkCells(m, t.node, Root(Child(t, dir)), Tip(p), pd);
      Linked(c, Tip(p), m') && PathLinked(p, Root(c), Height(t), m')
    ensures Child(t, dir).Bin? ==> Child(t, dir).node in m
  {
    var c := Child(t, dir);
    var m' := UnlinkCells(m, t.node, Root(c), Tip(p), pd);
    MakeDistinct(dir, c, t.node, t.entry, Nil);
    assert t == Make(dir, c, t.node, t.entry, Nil);
    assert Linked(c, t.node, m);
    SeparateMeans(p, Nodes(t));
    LinkedNodes(c, t.node, m);
    if c.Bin? { Rehang(c, t.node, m, m'); }
    if p.Step? {
      SeparateMeans(p.parent, Nodes(t) + {p.node} + Nodes(p.other));
      Replug(p, t.node, Root(c), Height(t), Nodes(t), m, m');
    }
  }

  lemma {:induction false} SeparateShrinks(p: Path, below: set<Node>, less: set<Node>)
    requires Separate(p, below) && less <= below
    ensures Separate(p, less)
  {
    if p.Step? {
      SeparateShrinks(p.parent, below + {p.node} + Nodes(p.other), less + {p.node} + Nodes(p.other));
    }
  }

  /** Path `p` with the entry of node `n` exchanged. */
  ghost function WithEntry(p: Path, n: Node, e: Entry): Path
  {
    match p
    case Top => Top
    case Step(q, x, f, d, o) => if x == n then Step(q, x, e, d, o) else Step(WithEntry(q, n, e), x, f, d, o)
  }

  ghost predicate OnSpine(p: Path, n: Node)
  {
    p.Step? && (p.node == n || OnSpine(p.parent, n))
  }

  lemma {:induction false} SpineNodes(p: Path, n: Node)
    requires OnSpine(p, n)
    ensures n in PathNodes(p)
  {
    if p.node != n { SpineNodes(p.parent, n); }
  }

  lemma {:induction false} PathLinkedNodes(p: Path, hole: Node?, h: int, m: Mem)
    requires PathLinked(p, hole, h, m)
    ensures PathNodes(p) <= m.Keys
  {
    if p.Step? {
      PathLinkedNodes(p.parent, p.node, HeightAbove(p, h), m);
      LinkedNodes(p.other, p.node, m);
    }
  }

  /** Exchanging the data of a node on the path leaves everything else as it is. */
  lemma {:induction false} WithEntryFocus(p: Path, hole: Node?, h: int, below: set<Node>, n: Node, e: Entry, m: Mem)
    requires PathLinked(p, hole, h, m) && Separate(p, below) && OnSpine(p, n) && n in m
    ensures PathLinked(WithEntry(p, n, e), hole, h, m[n := m[n].(entry := e)])
  {
    var m' := m[n := m[n].(entry := e)];
    var below' := below + {p.node} + Nodes(p.other);
    SeparateMeans(p.parent, below');
    LinkedNodes(p.other, p.node, m);
    PathLinkedNodes(p.parent, p.node, HeightAbove(p, h), m);
    if p.node == n {
      FrameLinked(p.other, p.node, m, m');
      FramePath(p.parent, p.node, HeightAbove(p, h), m, m');
    } else {
      SpineNodes(p.parent, n);
      FrameLinked(p.other, p.node, m, m');
      WithEntryFocus(p.parent, p.node, HeightAbove(p, h), below', n, e, m);
      WithEntryShape(p.parent, n, e, p.node, h, {});
    }
  }

  lemma {:induction false} WithEntryShape(p: Path, n: Node, e: Entry, hole: Node?, h: int, below: set<Node>)
    ensures var q := WithEntry(p, n, e);
      && Tip(q) == Tip(p) && PathNodes(q) == PathNodes(p) && Apex(q, hole) == Apex(p, hole)
      && (Separate(p, below) ==> Separate(q, below)) && (BalancedPath(p, h) ==> BalancedPath(q, h))
  {
    if p.Step? {
      WithEntryShape(p.parent, n, e, p.node, HeightAbove(p, h), below + {p.node} + Nodes(p.other));
    }
  }

  // ---------------------------------------------------------------------------
  // The in-order successor

  /** `q` leads from `p` through node `it` to its right child and from there only to the left. */
  ghost predicate HeirPath(q: Path, p: Path, it: Node, e: Entry, l: Tree)
  {
    && q.Step?
    && (q == Step(p, it, e, true, l) || (!q.dir && q.node != it && HeirPath(q.parent, p, it, e, l)))
  }

  lemma {:induction false} HeirPathFacts(q: Path, p: Path, it: Node, e: Entry, l: Tree, e': Entry)
    requires HeirPath(q, p, it, e, l)
    ensures OnSpine(q, it) && q.dir == (q.node == it)
    ensures Before(q) == Before(p) + (Entries(l) + [e])
    ensures HeirPath(WithEntry(q, it, e'), p, it, e', l) && After(WithEntry(q, it, e')) == After(q)
    ensures WithEntry(q, it, e').node == q.node && WithEntry(q, it, e').dir == q.dir
  {
    if q != Step(p, it, e, true, l) { HeirPathFacts(q.parent, p, it, e, l, e'); }
  }

  /** Once the heir's data has been copied into `it`, only the heir's node is left to unlink. */
  lemma CopyHeir(q: Path, p: Path, t: Tree, it: Node, e: Entry, l: Tree, root: Node?, m: Mem)
    requires HeirPath(q, p, it, e, l) && t.Bin? && t.left.Nil?
    requires Focus(q, t, Height(t), m) && Apex(q, Root(t)) == root
    ensures it in m
    ensures var q', m' := WithEntry(q, it, t.entry), m[it := m[it].(entry := t.entry)];
      && Focus(q', t, Height(t), m') && Apex(q', Root(t)) == root
      && q'.Step? && q'.node == q.node && q'.dir == q.dir == (q.node == it)
      && Whole(q', t.right) == Before(p) + Entries(l) + (Entries(t) + After(q))
      && Whole(q, t) == Before(p) + Entries(l) + [e] + (Entries(t) + After(q))
  {
    hide HeirPath, Whole, OnSpine, Linked, PathLinked, Distinct, Balanced, Separate, BalancedPath, WithEntry, Before,
         After, Entries, PathNodes, Nodes, Apex, Height;
    HeirPathFacts(q, p, it, e, l, t.entry);
    CopyHeirEntries(q, p, t, it, e, l);
    SpineNodes(q, it);
    CopyHeirLinks(q, t, it, m);
    WithEntryShape(q, it, t.entry, Root(t), Height(t), Nodes(t));
  }

  lemma LeftmostEntry(t: Tree)
    requires t.Bin? && t.left.Nil?
    ensures Entries(t) == [t.entry] + Entries(t.right)
  {
  }

  lemma CopyHeirEntries(q: Path, p: Path, t: Tree, it: Node, e: Entry, l: Tree)
    requires HeirPath(q, p, it, e, l) && t.Bin? && t.left.Nil?
    ensures Whole(WithEntry(q, it, t.entry), t.right) == Before(p) + Entries(l) + (Entries(t) + After(q))
    ensures Whole(q, t) == Before(p) + Entries(l) + [e] + (Entries(t) + After(q))
  {
    hide HeirPath, WithEntry, Before, After, Entries;
    var q' := WithEntry(q, it, t.entry);
    HeirPathFacts(q, p, it, e, l, t.entry);
    HeirPathFacts(q', p, it, t.entry, l, t.entry);
    LeftmostEntry(t);
    Regroup(Before(p), Entries(l), [t.entry], Entries(t.right), After(q));
    Regroup(Before(p), Entries(l), [e], Entries(t), After(q));
  }

  lemma CopyHeirLinks(q: Path, t: Tree, it: Node, m: Mem)
    requires t.Bin? && Focus(q, t, Height(t), m) && OnSpine(q, it)
    ensures it in m
    ensures var m' := m[it := m[it].(entry := t.entry)];
      && Linked(t, Tip(q), m') && PathLinked(WithEntry(q, it, t.entry), Root(t), Height(t), m')
      && m'.Keys == m.Keys
  {
    SpineNodes(q, it);
    SeparateMeans(q, Nodes(t));
    FrameLinked(t, Tip(q), m, m[it := m[it].(entry := t.entry)]);
    WithEntryFocus(q, Root(t), Height(t), Nodes(t), it, t.entry, m);
  }

  lemma UnlinkReads(p: Path, t: Tree, dir: bool, m: Mem)
    requires t.Bin? && Focus(p, t, Height(t), m)
    ensures t.node in m && m[t.node].Link(dir) == Root(Child(t, dir))
    ensures p.Step? ==> p.node in m && p.node != t.node && p.node != Root(Child(t, dir))
    ensures Child(t, dir).Bin? ==> Child(t, dir).node in m && Child(t, dir).node != t.node
  {
    assert Linked(Child(t, dir), t.node, m);
  }

  /** The search for the in-order successor of the top node of `t` has come to `c`. */
  ghost predicate Seeks(q: Path, p: Path, c: Tree, t: Tree, root: Node?, m: Mem)
    requires t.Bin?
  {
    && HeirPath(q, p, t.node, t.entry, t.left)
    && Focus(q, c, Height(c), m) && Apex(q, Root(c)) == root
    && Entries(c) + After(q) == Entries(t.right) + After(p)
    && t.node in m
    && (c.Bin? ==> c.node in m && m[c.node].entry == c.entry && m[c.node].left == Root(c.left))
  }

  lemma HeirStart(p: Path, t: Tree, root: Node?, m: Mem)
    requires t.Bin? && t.right.Bin? && Focus(p, t, Height(t), m) && Apex(p, Root(t)) == root
    ensures Seeks(Step(p, t.node, t.entry, true, t.left), p, t.right, t, root, m)
    ensures t.node in m && t.right.node in m && m[t.node].right == Root(t.right)
    ensures Whole(p, t) == Before(p) + Entries(t.left) + [t.entry] + (Entries(t.right) + After(p))
  {
    hide Separate, Distinct;
    Descend(p, t, true, m);
    assert Linked(t.right, t.node, m);
    Regroup(Before(p), Entries(t.left), [t.entry], Entries(t.right), After(p));
  }

  lemma HeirStep(q: Path, p: Path, c: Tree, t: Tree, root: Node?, m: Mem)
    requires t.Bin? && c.Bin? && c.left.Bin? && Seeks(q, p, c, t, root, m)
    ensures Seeks(Step(q, c.node, c.entry, false, c.right), p, c.left, t, root, m)
  {
    Descend(q, c, false, m);
    HeirPathFacts(q, p, t.node, t.entry, t.left, t.entry);
    SpineNodes(q, t.node);
    SeparateMeans(q, Nodes(c));
    assert Entries(c) + After(q) == Entries(c.left) + ([c.entry] + Entries(c.right) + After(q));
  }

  lemma {:induction false} WithEntryStack(p: Path, n: Node, e: Entry, up: seq<Node?>, upd: seq<bool>)
    requires OnStack(p, up, upd)
    ensures OnStack(WithEntry(p, n, e), up, upd)
  {
    if p.Step? { WithEntryStack(p.parent, n, e, up[..|up| - 1], upd[..|upd| - 1]); }
  }

  lemma UnlinkWhole(p: Path, t: Tree, dir: bool)
    requires t.Bin? && Child(t, !dir).Nil?
    ensures Whole(p, Child(t, dir)) == Before(p) + Entries(t.left) + (Entries(t.right) + After(p))
  {
    if dir {
      assert Before(p) + Entries(t.right) + After(p) == Before(p) + [] + (Entries(t.right) + After(p));
    } else {
      assert Before(p) + Entries(t.left) + After(p) == Before(p) + Entries(t.left) + ([] + After(p));
    }
  }
}
