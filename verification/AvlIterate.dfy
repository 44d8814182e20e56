/** Searching and walking the tree: avl_find, avl_next, avl_iterate. */
module AvlIterate {
  import opened AvlShape
  import opened AvlMemory
  import opened AvlContents
  import opened Avl

  /** The part of the tree that is still searched is `t`, between `b` and `a`. */
  ghost predicate Part(b: seq<Entry>, t: Tree, a: seq<Entry>, up: Node?, tree: AvlTree)
    reads tree
  {
    tree.Contents() == b + Entries(t) + a && Linked(t, up, tree.mem)
  }

  lemma PartStep(b: seq<Entry>, t: Tree, a: seq<Entry>, up: Node?, tree: AvlTree)
    requires tree.Valid() && t.Bin? && Part(b, t, a, up, tree)
    ensures Part(b, t.left, [t.entry] + Entries(t.right) + a, t.node, tree)
    ensures Part(b + Entries(t.left) + [t.entry], t.right, a, t.node, tree)
    ensures AllAtMost(Entries(t.left), t.entry.key) && AllAtLeast(Entries(t.right), t.entry.key)
    ensures t.node in tree.mem && tree.mem[t.node].entry == t.entry
    ensures tree.mem[t.node].left == Root(t.left) && tree.mem[t.node].right == Root(t.right)
  {
    assert b + (Entries(t.left) + [t.entry] + Entries(t.right)) + a
        == b + Entries(t.left) + ([t.entry] + Entries(t.right) + a)
        == b + Entries(t.left) + [t.entry] + Entries(t.right) + a;
    SortedAround(b, Entries(t.left), t.entry, Entries(t.right), a);
  }

  /** avl_find: some node with the key, if there is one. */
  method Find(tree: AvlTree, key: nat) returns (an: Node?)
    requires tree.Valid()
    ensures an == null <==> Absent(tree.Contents(), key)
    ensures an != null ==> an in tree.mem && an.entry.key == key && an.entry in tree.Contents()
  {
    hide Linked, Sorted, Distinct, Balanced;
    an := tree.root;
    ghost var b, t, a, up := [], tree.shape, [], null;
    assert [] + Entries(t) + [] == Entries(t);
    while an != null && an.entry.key != key
      invariant an == Root(t) && Part(b, t, a, up, tree) && (t.Bin? ==> t.node in tree.mem)
      invariant Absent(b, key) && Absent(a, key)
      decreases t
    {
      PartStep(b, t, a, up, tree);
      assert Holds(an, tree.mem[an]);
      if an.entry.key < key {
        b, t, up := b + Entries(t.left) + [t.entry], t.right, an;
        an := an.Link(true);
      } else {
        a, t, up := [t.entry] + Entries(t.right) + a, t.left, an;
        an := an.Link(false);
      }
      if t.Bin? { PartStep(b, t, a, up, tree); }
    }
    if an != null {
      PartStep(b, t, a, up, tree);
      assert Holds(an, tree.mem[an]);
      assert t.entry in Entries(t);
    }
  }

  /** The contents split between the entries up to `key` and those above, and the
      first of the latter is the one in `best`. */
  ghost predicate Split(b: seq<Entry>, a: seq<Entry>, best: Node?, key: nat, m: Mem)
  {
    && AllAtMost(b, key) && AllAbove(a, key)
    && if best == null then a == [] else a != [] && best in m && m[best].entry == a[0]
  }

  lemma SplitStep(b: seq<Entry>, t: Tree, a: seq<Entry>, best: Node?, key: nat, m: Mem)
    requires t.Bin? && Split(b, a, best, key, m) && t.node in m && m[t.node].entry == t.entry
    requires AllAtMost(Entries(t.left), t.entry.key) && AllAtLeast(Entries(t.right), t.entry.key)
    ensures t.entry.key <= key ==> Split(b + Entries(t.left) + [t.entry], a, best, key, m)
    ensures t.entry.key > key ==> Split(b, [t.entry] + Entries(t.right) + a, t.node, key, m)
  {
  }

  /** The entry is one of those above the key, and none of them is below it. */
  ghost predicate LeastAbove(s: seq<Entry>, e: Entry, key: nat)
  {
    e in s && e.key > key && forall x :: x in s && x.key > key ==> e.key <= x.key
  }

  /** A sorted sequence that is split at the key has the least entry above it right after the split. */
  lemma SplitLeast(s: seq<Entry>, at: nat, an: Node?, key: nat, m: Mem)
    requires Sorted(s) && at <= |s| && Split(s[..at], s[at..], an, key, m)
    ensures an == null <==> forall x :: x in s ==> x.key <= key
    ensures an != null ==> an in m && LeastAbove(s, m[an].entry, key)
  {
    assert forall j :: 0 <= j < at ==> s[j] == s[..at][j];
    assert forall j :: at <= j < |s| ==> s[j] == s[at..][j - at];
    if an != null { assert s[at] == m[an].entry; }
  }

  /** avl_next: the least entry strictly above `key`, whether or not `key` itself is stored. */
  method Next(tree: AvlTree, key: nat) returns (an: Node?, ghost at: nat)
    requires tree.Valid()
    ensures at <= |tree.Contents()| && Split(tree.Contents()[..at], tree.Contents()[at..], an, key, tree.mem)
    ensures an == null <==> forall x :: x in tree.Contents() ==> x.key <= key
    ensures an != null ==> an in tree.mem && LeastAbove(tree.Contents(), an.entry, key)
  {
    hide Linked, Sorted, Distinct, Balanced, Height, Nodes, Split, LeastAbove;
    an := tree.root;
    var best: Node? := null;
    ghost var b, t, a, up := [], tree.shape, [], null;
    EmptySplit(key, tree.mem);
    assert [] + Entries(t) + [] == Entries(t);
    while an != null
      invariant an == Root(t) && Part(b, t, a, up, tree) && (t == Nil ==> b == a == [] && best == null)
      invariant Split(b, a, best, key, tree.mem)
      decreases t
    {
      PartStep(b, t, a, up, tree);
      SplitStep(b, t, a, best, key, tree.mem);
      assert Holds(an, tree.mem[an]);
      var cmp := an.entry.key <= key;
      if an.Link(cmp) != null {
        best := if cmp then best else an;
        if cmp {
          b, t, up := b + Entries(t.left) + [t.entry], t.right, an;
        } else {
          a, t, up := [t.entry] + Entries(t.right) + a, t.left, an;
        }
        an := an.Link(cmp);
      } else {
        if cmp {
          b, a := b + Entries(t.left) + [t.entry], [] + a;
        } else {
          a := [t.entry] + Entries(t.right) + a;
        }
        an := if cmp then best else an;
        at := |b|;
        SplitAt(b, a);
        SplitLeast(tree.Contents(), at, an, key, tree.mem);
        return;
      }
    }
    at := 0;
    SplitAt(b, a);
    SplitLeast(tree.Contents(), at, an, key, tree.mem);
  }

  lemma EmptySplit(key: nat, m: Mem)
    ensures Split([], [], null, key, m)
  {
  }

  lemma SplitAt(b: seq<Entry>, a: seq<Entry>)
    ensures (b + a)[..|b|] == b && (b + a)[|b|..] == a
    ensures b + [] + a == b + a && [] + a == a
  {
  }

  // ---------------------------------------------------------------------------
  // avl_iterate

  ghost function NodesBefore(p: Path): seq<Node>
  {
    match p
    case Top => []
    case Step(q, n, _, d, o) => if d then NodesBefore(q) + (InOrder(o) + [n]) else NodesBefore(q)
  }

  ghost function NodesAfter(p: Path): seq<Node>
  {
    match p
    case Top => []
    case Step(q, n, _, d, o) => if d then NodesAfter(q) else [n] + InOrder(o) + NodesAfter(q)
  }

  lemma {:induction false} ZipInOrder(p: Path, t: Tree)
    ensures InOrder(Zip(p, t)) == NodesBefore(p) + InOrder(t) + NodesAfter(p)
  {
    if p.Step? {
      ZipInOrder(p.parent, Make(p.dir, t, p.node, p.entry, p.other));
      var b, a, x, o := NodesBefore(p.parent), NodesAfter(p.parent), InOrder(t), InOrder(p.other);
      if p.dir {
        assert b + (o + [p.node] + x) + a == (b + (o + [p.node])) + x + a;
      } else {
        assert b + (x + [p.node] + o) + a == b + x + ([p.node] + o + a);
      }
    }
  }

  /** The path to a node of the tree. */
  lemma {:induction false} Locate(p: Path, t: Tree, n: Node, m: Mem) returns (q: Path, s: Tree)
    requires Focus(p, t, Height(t), m) && n in Nodes(t)
    ensures s.Bin? && s.node == n && Focus(q, s, Height(s), m) && Zip(q, s) == Zip(p, t)
    decreases t
  {
    if t.node == n {
      return p, t;
    }
    var d := n in Nodes(t.right);
    Descend(p, t, d, m);
    q, s := Locate(Step(p, t.node, t.entry, d, Child(t, !d)), Child(t, d), n, m);
  }

  /** The entries in order are those of the nodes in order, and no node comes twice. */
  lemma {:induction false} InOrderNodes(t: Tree, up: Node?, m: Mem)
    requires Linked(t, up, m) && Distinct(t)
    ensures |InOrder(t)| == |Entries(t)|
    ensures forall i :: 0 <= i < |InOrder(t)| ==>
      InOrder(t)[i] in m && InOrder(t)[i] in Nodes(t) && m[InOrder(t)[i]].entry == Entries(t)[i]
    ensures forall i, j :: 0 <= i < j < |InOrder(t)| ==> InOrder(t)[i] != InOrder(t)[j]
  {
    if t.Bin? {
      InOrderNodes(t.left, t.node, m);
      InOrderNodes(t.right, t.node, m);
    }
  }

  /** The leftmost node below `an`. */
  method Leftmost(an: Node?, ghost t: Tree, ghost up: Node?, ghost m: Mem) returns (r: Node?)
    requires InHeap(m) && Linked(t, up, m) && an == Root(t)
    ensures r == if InOrder(t) == [] then null else InOrder(t)[0]
  {
    r := an;
    ghost var c, above := t, up;
    while r != null && r.left != null
      invariant r == Root(c) && Linked(c, above, m)
      invariant InOrder(c) <= InOrder(t) && (t.Bin? ==> c.Bin?)
      decreases c
    {
      assert Holds(r, m[r]);
      c, above := c.left, r;
      r := r.left;
    }
    if c.Bin? {
      assert Holds(c.node, m[c.node]);
    }
  }

  lemma ClimbStep(p: Path, t: Tree, m: Mem)
    requires t.Bin? && Focus(p, t, Height(t), m)
    ensures t.node in m && m[t.node].up == Tip(p)
    ensures p.Step? ==> p.node in m && (m[p.node].left == t.node <==> !p.dir)
    ensures p.Step? ==> var u := Make(p.dir, t, p.node, p.entry, p.other);
      Focus(p.parent, u, Height(u), m)
    ensures NodesAfter(p) == if p.Top? then [] else if p.dir then NodesAfter(p.parent)
                             else [p.node] + InOrder(p.other) + NodesAfter(p.parent)
  {
    if p.Step? {
      MakeDistinct(p.dir, t, p.node, p.entry, p.other);
      if p.dir && p.other.Bin? { assert p.other.node != t.node; }
    }
  }

  /** avl_iterate: the node after `an` in order, the first one for NULL, NULL at the end. */
  method Iterate(tree: AvlTree, an: Node?) returns (r: Node?)
    requires tree.Valid() && (an != null ==> an in tree.mem)
    ensures an == null ==> r == if InOrder(tree.shape) == [] then null else InOrder(tree.shape)[0]
    ensures an != null ==> exists i :: IsNext(InOrder(tree.shape), i, an, r)
  {
    hide Linked, Sorted, Distinct, Balanced, Focus;
    if an == null {
      r := Leftmost(tree.root, tree.shape, null, tree.mem);
      return;
    }
    ghost var p, t := LocateRoot(tree, an);
    ghost var at := |NodesBefore(p) + InOrder(t.left)|;
    assert Holds(an, tree.mem[an]);
    if an.right != null {
      r := Leftmost(an.right, t.right, an, tree.mem);
    } else {
      r := Climb(tree, an, p, t);
    }
    assert IsNext(InOrder(tree.shape), at, an, r);
  }

  /** Up the parent pointers until a node is reached from its left child. */
  method Climb(tree: AvlTree, an: Node, ghost p0: Path, ghost t0: Tree) returns (r: Node?)
    requires tree.Valid() && t0.Bin? && t0.node == an && Focus(p0, t0, Height(t0), tree.mem)
    ensures r == if NodesAfter(p0) == [] then null else NodesAfter(p0)[0]
  {
    hide Linked, Sorted, Distinct, Balanced, Focus;
    ghost var p, t := p0, t0;
    ClimbStep(p, t, tree.mem);
    assert Holds(an, tree.mem[an]);
    var prev := an;
    r := an.up;
    while r != null
      invariant r == Tip(p) && t.Bin? && t.node == prev && Focus(p, t, Height(t), tree.mem)
      invariant NodesAfter(p) == NodesAfter(p0)
      decreases p
    {
      ClimbStep(p, t, tree.mem);
      assert Holds(r, tree.mem[r]);
      if r.left == prev {
        return;
      }
      prev := r;
      p, t := p.parent, Make(p.dir, t, p.node, p.entry, p.other);
      ClimbStep(p, t, tree.mem);
      r := r.up;
    }
    ClimbStep(p, t, tree.mem);
  }

  /** `an` stands at position `i`, and `r` is what comes next. */
  ghost predicate IsNext(all: seq<Node>, i: int, an: Node, r: Node?)
  {
    0 <= i < |all| && all[i] == an && r == if i + 1 < |all| then all[i + 1] else null
  }

  lemma LocateRoot(tree: AvlTree, an: Node) returns (p: Path, t: Tree)
    requires tree.Valid() && an in tree.mem
    ensures t.Bin? && t.node == an && Focus(p, t, Height(t), tree.mem)
    ensures InOrder(tree.shape) == NodesBefore(p) + InOrder(t.left) + [an] + (InOrder(t.right) + NodesAfter(p))
    ensures tree.mem[an].right == Root(t.right) && Linked(t.right, an, tree.mem)
  {
    p, t := Locate(Top, tree.shape, an, tree.mem);
    ZipInOrder(p, t);
    Regroup(NodesBefore(p), InOrder(t.left), [an], InOrder(t.right), NodesAfter(p));
  }

  /** Walking the tree with avl_iterate visits every entry exactly once, in order. */
  method Walk(tree: AvlTree) returns (s: seq<Entry>)
    requires tree.Valid()
    ensures s == tree.Contents()
  {
    InOrderNodes(tree.shape, null, tree.mem);
    ghost var all, i := InOrder(tree.shape), 0;
    s := [];
    var an := Iterate(tree, null);
    while an != null
      invariant 0 <= i <= |all| && an == (if i < |all| then all[i] else null)
      invariant s == tree.Contents()[..i]
      decreases |all| - i
    {
      assert Holds(an, tree.mem[an]);
      s := s + [an.entry];
      var next := Iterate(tree, an);
      ghost var j :| IsNext(all, j, an, next);
      i, an := i + 1, next;
    }
  }
}
