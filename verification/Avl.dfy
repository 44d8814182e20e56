/**
 The AVL tree of `avl.c` on the heap: nodes with parent pointers and stored
 heights, explicit path stacks of 128 slots, duplicate keys allowed.
 */
module Avl {
  import opened Wrappers
  import opened AvlShape
  import opened AvlMemory
  import opened AvlContents
  import opened AvlRetrace

  /** The macro avl_height. */
  function StoredHeight(n: Node?): int
    reads n
  {
    if n == null then -1 else n.balance
  }

  /** avl_rotate_single: the parent pointer of the new top node is left to the caller. */
  method RotateSingleAt(n: Node, dir: bool, ghost m: Mem) returns (save: Node)
    requires InHeap(m) && Rotatable(m, n, dir)
    modifies m.Keys
    ensures InHeap(SingleCells(m, n, dir)) && save == m[n].Link(!dir)
  {
    save := n.Link(!dir);
    var moved := save.Link(dir);
    n.SetLink(!dir, moved);
    if moved != null {
      moved.up := n;
    }
    save.SetLink(dir, n);
    n.up := save;
    var rlh, rrh, slh := StoredHeight(n.left), StoredHeight(n.right), StoredHeight(save.Link(!dir));
    n.balance := Max(rlh, rrh) + 1;
    save.balance := Max(slh, n.balance) + 1;
    ghost var m' := SingleCells(m, n, dir);
    assert Holds(n, m'[n]);
    assert Holds(save, m'[save]);
    assert moved != null ==> Holds(moved, m'[moved]);
  }

  /** avl_rotate_double. */
  method RotateDoubleAt(n: Node, dir: bool, ghost m: Mem) returns (save: Node)
    requires InHeap(m) && DoubleRotatable(m, n, dir)
    modifies m.Keys
    ensures InHeap(DoubleCells(m, n, dir)) && save == HalfDoubleCells(m, n, dir)[n].Link(!dir)
  {
    var first := RotateSingleAt(n.Link(!dir), !dir, m);
    Hang(first, n, !dir, SingleCells(m, m[n].Link(!dir), !dir));
    save := RotateSingleAt(n, dir, HalfDoubleCells(m, n, dir));
  }

  /** The two writes that make `top` a child of `parent`. */
  method Hang(top: Node, parent: Node?, pd: bool, ghost m: Mem)
    requires InHeap(m) && top in m && (parent != null ==> parent in m)
    modifies m.Keys
    ensures InHeap(HungCells(m, top, parent, pd))
  {
    if parent != null {
      parent.SetLink(pd, top);
    }
    top.up := parent;
  }

  /** Both walk-back loops choose the rotation this way when side `d` is two levels too high. */
  method RotateAt(n: Node, d: bool, ghost parent: Node?, ghost m: Mem) returns (top: Node)
    requires InHeap(m) && Rebalanceable(m, n, d, parent)
    modifies m.Keys
    ensures InHeap(RotatedCells(m, n, d, parent)) && top == RotatedTop(m, n, d, parent)
  {
    var c := n.Link(d);
    assert Holds(c, m[c]) && Holds(n, m[n]);
    if StoredHeight(c.Link(d)) >= StoredHeight(c.Link(!d)) {
      top := RotateSingleAt(n, !d, m);
    } else {
      top := RotateDoubleAt(n, !d, m);
    }
  }

  /** Push direction and node onto the stacks. */
  method Push(up: array<Node?>, upd: array<bool>, top: nat, n: Node, d: bool, ghost e: Entry, ghost o: Tree,
              ghost p: Path)
    requires up.Length == upd.Length && top < up.Length && OnStack(p, up[..top], upd[..top])
    modifies up, upd
    ensures up[top] == n && upd[top] == d
    ensures OnStack(Step(p, n, e, d, o), up[..top + 1], upd[..top + 1])
  {
    ghost var u, b := up[..top], upd[..top];
    upd[top] := d;
    up[top] := n;
    assert up[..top + 1] == u + [n] && upd[..top + 1] == b + [d];
    PushedOnStack(p, n, e, d, o, u, b);
  }

  class AvlTree {
    var root: Node?
    ghost var shape: Tree
    ghost var mem: Mem

    ghost predicate Valid()
      reads this, mem.Keys
    {
      && root == Root(shape) && InHeap(mem) && mem.Keys == Nodes(shape)
      && Linked(shape, null, mem) && Distinct(shape) && Balanced(shape)
      && Sorted(Entries(shape))
    }

    ghost function Contents(): seq<Entry>
      reads this
    {
      Entries(shape)
    }

    constructor ()
      ensures Valid() && Contents() == [] && shape == Nil
    {
      root, shape, mem := null, Nil, map[];
    }

    /** Rotate at `n` and point the parent, or the tree, at the new top node. */
    method RebalanceAt(n: Node, d: bool, parent: Node?, pd: bool, ghost m: Mem) returns (top: Node)
      requires InHeap(m) && Rebalanceable(m, n, d, parent)
      modifies this`root, m.Keys
      ensures InHeap(RebalanceCells(m, n, d, parent, pd)) && top == RotatedTop(m, n, d, parent)
      ensures root == if parent == null then top else old(root)
    {
      top := RotateAt(n, d, parent, m);
      Hang(top, parent, pd, RotatedCells(m, n, d, parent));
      if parent == null {
        root := top;
      }
    }
 
    /** avl_insert, the way down: record the path to the empty link where a new entry belongs. */
    method PathForInsert(key: nat, up: array<Node?>, upd: array<bool>) returns (top: nat, ghost p: Path)
      requires Valid() && root != null && |Contents()| < MAX_NODES
      requires up.Length == upd.Length == MAX_HEIGHT
      modifies up, upd
      ensures 0 < top <= MAX_HEIGHT && OnStack(p, up[..top], upd[..top])
      ensures Reached(p, Nil, root, key, Contents(), mem)
    {
      HeightFitsStack(shape);
      SearchStart(shape, key, mem);
      ghost var t := shape;
      var it := root;
      p, top := Path.Top, 0;
      while it != null
        invariant it == Root(t) && Reached(p, t, root, key, Contents(), mem)
        invariant top + Height(t) <= Height(shape) && OnStack(p, up[..top], upd[..top])
        decreases t
      {
        SearchStep(p, t, root, key, Contents(), mem);
        assert Holds(it, mem[it]);
        var d := it.entry.key <= key;
        Push(up, upd, top, it, d, t.entry, Child(t, !d), p);
        top := top + 1;
        p, t := Step(p, it, t.entry, d, Child(t, !d)), Child(t, d);
        it := it.Link(d);
      }
    }
 
    /** The stored height of `n` from those of its children. */
    static method UpdateBalance(n: Node, d: bool, ghost m: Mem)
      requires InHeap(m) && n in m && (forall b: bool :: m[n].Link(b) == null || m[n].Link(b) in m)
      modifies m.Keys
      ensures InHeap(m[n := m[n].(balance := Max(HeightIn(m, m[n].Link(d)), HeightIn(m, m[n].Link(!d))) + 1)])
    {
      assert Holds(n, m[n]);
      var lh, rh := StoredHeight(n.Link(d)), StoredHeight(n.Link(!d));
      n.balance := Max(lh, rh) + 1;
    }

    /** Rotate at `n`. */
    method Rotate(n: Node, d: bool, parent: Node?, pd: bool)
      requires InHeap(mem) && Rebalanceable(mem, n, d, parent)
      modifies this`root, this`mem, mem.Keys
      ensures mem == RebalanceCells(old(mem), n, d, parent, pd) && InHeap(mem)
      ensures root == if parent == null then RotatedTop(old(mem), n, d, parent) else old(root)
    {
      hide Rebalanceable, RebalanceCells, RotatedTop;
      ghost var m := RebalanceCells(mem, n, d, parent, pd);
      var top := RebalanceAt(n, d, parent, pd, mem);
      mem := m;
    }

    /** Rotate at `n`, then compute the height of the new top node `s.node` once more. */
    method RotateAndUpdate(n: Node, d: bool, parent: Node?, pd: bool, ghost s: Tree)
      requires InHeap(mem) && Rebalanceable(mem, n, d, parent)
      requires s.Bin? && RotatedTop(mem, n, d, parent) == s.node
      requires ChildHeights(s, RebalanceCells(mem, n, d, parent, pd))
      modifies this`root, this`mem, mem.Keys
      ensures mem == RebalanceCells(old(mem), n, d, parent, pd) && InHeap(mem)
      ensures root == if parent == null then s.node else old(root)
    {
      hide Rebalanceable, RebalanceCells, RotatedTop;
      ghost var m := RebalanceCells(mem, n, d, parent, pd);
      var top := RebalanceAt(n, d, parent, pd, mem);
      UpdateBalance(top, d, m);
      mem := m;
      assert m[top := m[top].(balance := Max(HeightIn(m, m[top].Link(d)), HeightIn(m, m[top].Link(!d))) + 1)] == m;
    }

    /** One iteration of the walk back after an insertion, at node `n`, whose side `d` has grown. */
    method InsertUp(n: Node, d: bool, parent: Node?, pd: bool, ghost p: Path, ghost t: Tree, ghost h: int)
      returns (done: bool, ghost t': Tree)
      requires InHeap(mem) && p.Step? && Inserting(p, t, h, false, root, mem)
      requires n == p.node && d == p.dir && parent == Tip(p.parent) && (p.parent.Step? ==> pd == p.parent.dir)
      modifies this`root, this`mem, mem.Keys
      ensures InHeap(mem) && mem.Keys == old(mem.Keys)
      ensures Inserting(p.parent, t', HeightAbove(p, h), done, root, mem)
      ensures Whole(p.parent, t') == Whole(p, t)
    {
      hide Inserting, Rebalanceable, RebalanceCells, RotatedTop, Rebalance, Whole;
      InsertUpEven(p, t, h, root, mem);
      assert Holds(n, mem[n]);
      var lh, rh := StoredHeight(n.Link(d)), StoredHeight(n.Link(!d));
      done := lh - rh == 0;
      if lh - rh >= 2 {
        InsertUpRotate(p, t, h, pd, root, mem);
        t' := Rebalance(Node1(p, t), d);
        RotateAndUpdate(n, d, parent, pd, t');
        done := true;
      } else {
        UpdateBalance(n, d, mem);
        mem := Rebalanced(p, t, mem);
        t' := Node1(p, t);
      }
    }

    /** avl_insert, the way back up: `t0`, at the end of path `p0`, holds the new entry. */
    method RetraceInsert(up: array<Node?>, upd: array<bool>, length: nat, ghost p0: Path, ghost t0: Tree, ghost h0: int)
      returns (ghost p: Path, ghost t: Tree)
      requires length <= up.Length == upd.Length && OnStack(p0, up[..length], upd[..length])
      requires InHeap(mem) && Inserting(p0, t0, h0, false, root, mem)
      modifies this`root, this`mem, mem.Keys
      ensures InHeap(mem) && mem.Keys == old(mem.Keys)
      ensures Focus(p, t, Height(t), mem) && Apex(p, Root(t)) == root && Whole(p, t) == Whole(p0, t0)
    {
      hide Inserting, Focus, Apex, Whole, Height, HeightAbove, InHeap, Root;
      var top: int, done := length - 1, false;
      ghost var h := h0;
      ghost var ups, upds := up[..length], upd[..length];
      p, t := p0, t0;
      assert ups[..length] == ups && upds[..length] == upds;
      while top >= 0 && !done
        invariant -1 <= top < length && up[..length] == ups && upd[..length] == upds
        invariant !done ==> OnStack(p, ups[..top + 1], upds[..top + 1])
        invariant InHeap(mem) && mem.Keys == old(mem.Keys)
        invariant Inserting(p, t, h, done, root, mem) && Whole(p, t) == Whole(p0, t0)
      {
        assert ups[..top + 1][..top] == ups[..top] && upds[..top + 1][..top] == upds[..top];
        ghost var t';
        done, t' := InsertUp(up[top], upd[top], if top != 0 then up[top - 1] else null,
                             if top != 0 then upd[top - 1] else false, p, t, h);
        p, t, h := p.parent, t', HeightAbove(p, h);
        top := top - 1;
      }
      InsertingEnds(p, t, h, done, root, mem);
    }
 
    /** Create the node for `e` and put it into the empty link at the end of the path. */
    method HangNewLeaf(it: Node, d: bool, e: Entry, ghost p: Path) returns (ghost t: Tree)
      requires InHeap(mem) && p.Step? && it == p.node && d == p.dir
      requires Focus(p, Nil, -1, mem) && Apex(p, null) == root
      modifies this`mem, mem.Keys
      ensures InHeap(mem) && fresh(mem.Keys - old(mem.Keys))
      ensures Inserting(p, t, -1, false, root, mem) && Whole(p, t) == Before(p) + [e] + After(p)
    {
      hide Inserting, Focus, Whole;
      var n := new Node(e);
      HangLeaf(p, n, e, root, mem);
      assert Holds(it, mem[it]);
      it.SetLink(d, n);
      n.up := it;
      t := Bin(Nil, n, e, Nil);
      mem := LeafCells(mem, it, d, n, e);
    }

    /** The end of both operations: the closed path is the new tree. */
    ghost method CloseTree(p: Path, t: Tree)
      requires InHeap(mem) && Focus(p, t, Height(t), mem) && Apex(p, Root(t)) == root && Sorted(Whole(p, t))
      modifies this`shape
      ensures Valid() && Contents() == Whole(p, t)
    {
      Close(p, t, mem);
      shape := Zip(p, t);
    }

    /** avl_insert, the first half: the new node hangs at the end of the path on the stacks. */
    method HangAtPath(e: Entry, up: array<Node?>, upd: array<bool>) returns (top: nat, ghost p: Path, ghost t: Tree)
      requires Valid() && root != null && |Contents()| < MAX_NODES
      requires up.Length == upd.Length == MAX_HEIGHT
      modifies up, upd, this`mem, mem.Keys
      ensures top <= MAX_HEIGHT && OnStack(p, up[..top], upd[..top])
      ensures InHeap(mem) && fresh(mem.Keys - old(mem.Keys))
      ensures Inserting(p, t, -1, false, root, mem) && Whole(p, t) == InsertSorted(old(Contents()), e)
    {
      hide Inserting, Focus, Reached, Linked, Distinct, Balanced, Sorted, InsertSorted, Entries, Height, OnStack;
      top, p := PathForInsert(e.key, up, upd);
      ReachedEmptyLink(p, root, e, Contents(), mem);
      t := HangNewLeaf(up[top - 1], upd[top - 1], e, p);
    }

    lemma IsSorted()
      requires Valid()
      ensures Sorted(Contents())
    {
    }

    /** avl_insert on a tree that is not empty. */
    method InsertBelowRoot(e: Entry)
      requires Valid() && root != null && |Contents()| < MAX_NODES
      modifies this, mem.Keys
      ensures Valid() && fresh(mem.Keys - old(mem.Keys))
      ensures Contents() == InsertSorted(old(Contents()), e)
    {
      hide Valid, Contents, Inserting, Focus, Sorted, InsertSorted, Height, OnStack, Whole, InHeap, Apex, Root;
      IsSorted();
      InsertSortedIsInsertion(Contents(), e);
      var up, upd := new Node?[MAX_HEIGHT], new bool[MAX_HEIGHT];
      ghost var p, t;
      var top;
      top, p, t := HangAtPath(e, up, upd);
      p, t := RetraceInsert(up, upd, top, p, t, -1);
      CloseTree(p, t);
    }

    /** avl_insert. */
    method Insert(e: Entry)
      requires Valid() && |Contents()| < MAX_NODES
      modifies this, mem.Keys
      ensures Valid() && fresh(mem.Keys - old(mem.Keys))
      ensures Contents() == InsertSorted(old(Contents()), e)
    {
      if root != null {
        InsertBelowRoot(e);
      } else {
        var n := new Node(e);
        root := n;
        mem := map[n := Cell(e, 0, null, null, null)];
        shape := Bin(Nil, n, e, Nil);
        assert Entries(shape) == [e] && Nodes(shape) == {n};
      }
    }
 
    // -------------------------------------------------------------------------
    // Removal

    /** avl_remove, the way down: find a node with the given key that has no equal left child. */
    method PathForRemove(key: nat, up: array<Node?>, upd: array<bool>)
      returns (it: Node?, top: nat, ghost p: Path, ghost t: Tree)
      requires Valid() && root != null && |Contents()| < MAX_NODES
      requires up.Length == upd.Length == MAX_HEIGHT
      modifies up, upd
      ensures top + Height(t) + 1 < MAX_HEIGHT && OnStack(p, up[..top], upd[..top])
      ensures it == Root(t) && Seeking(p, t, root, key, Contents(), mem)
      ensures it != null ==> t.entry.key == key
    {
      hide Seeking;
      HeightFitsStack(shape);
      SeekStart(shape, key, mem);
      t, it, p, top := shape, root, Path.Top, 0;
      SeekReadable(p, t, root, key, Contents(), mem);
      while it != null && (it.entry.key != key || (it.left != null && it.left.entry.key == key))
        invariant it == Root(t) && Seeking(p, t, root, key, Contents(), mem)
        invariant it != null ==> it in mem && mem[it].entry == t.entry && mem[it].left == Root(t.left)
        invariant it != null && t.left.Bin? ==> t.left.node in mem && mem[t.left.node].entry == t.left.entry
        invariant top + Height(t) <= Height(shape) && OnStack(p, up[..top], upd[..top])
        decreases t
      {
        SeekReadable(p, t, root, key, Contents(), mem);
        assert Holds(it, mem[it]);
        assert t.left.Bin? ==> Holds(t.left.node, mem[t.left.node]);
        var d := it.entry.key < key;
        Push(up, upd, top, it, d, t.entry, Child(t, !d), p);
        top := top + 1;
        SeekStep(p, t, root, key, Contents(), mem);
        p, t := Step(p, it, t.entry, d, Child(t, !d)), Child(t, d);
        it := it.Link(d);
        if t.Bin? { SeekReadable(p, t, root, key, Contents(), mem); }
      }
    }

    /** Take node `it` out and put its only child, on side `dir`, if any, into its place. */
    method Unlink(it: Node, dir: bool, parent: Node?, pd: bool, ghost p: Path, ghost t: Tree)
      requires InHeap(mem) && t.Bin? && t.node == it && Child(t, !dir).Nil?
      requires Focus(p, t, Height(t), mem) && Apex(p, Root(t)) == root
      requires parent == Tip(p) && (p.Step? ==> pd == p.dir)
      modifies this`root, this`mem, mem.Keys
      ensures InHeap(mem) && old(mem.Keys) == mem.Keys + {it}
      ensures Removing(p, Child(t, dir), Height(t), false, root, mem)
    {
      hide Removing, Focus, Apex, Separate, Height;
      UnlinkNode(p, t, dir, pd, root, mem);
      UnlinkReads(p, t, dir, mem);
      assert Holds(it, mem[it]);
      var child := it.Link(dir);
      if parent != null {
        parent.SetLink(pd, child);
      } else {
        root := child;
      }
      if child != null {
        child.up := parent;
      }
      ghost var m := mem;
      mem := UnlinkCells(m, it, child, parent, pd);
      assert parent != null ==> Holds(parent, mem[parent]);
      assert child != null ==> Holds(child, mem[child]);
      forall x | x in mem && x != parent && x != child
        ensures Holds(x, mem[x])
      {
        assert Holds(x, m[x]);
      }
    }

    /** avl_remove, a node with two children: it takes over the data of its in-order
        successor, whose node is unlinked instead. */
    method ReplaceByHeir(it: Node, up: array<Node?>, upd: array<bool>, length: nat, ghost p: Path, ghost t: Tree)
      returns (top: nat, ghost q: Path, ghost c: Tree, ghost h: int)
      requires InHeap(mem) && t.Bin? && t.node == it && t.left.Bin? && t.right.Bin?
      requires Focus(p, t, Height(t), mem) && Apex(p, Root(t)) == root
      requires up.Length == upd.Length == MAX_HEIGHT && length + Height(t) + 1 < MAX_HEIGHT
      requires OnStack(p, up[..length], upd[..length])
      modifies this`root, this`mem, mem.Keys, up, upd
      ensures top <= MAX_HEIGHT && OnStack(q, up[..top], upd[..top])
      ensures InHeap(mem) && mem.Keys <= old(mem.Keys)
      ensures Removing(q, c, h, false, root, mem)
      ensures Whole(p, t) == Before(p) + Entries(t.left) + [t.entry] + (Entries(t.right) + After(p))
      ensures Whole(q, c) == Before(p) + Entries(t.left) + (Entries(t.right) + After(p))
    {
      hide Focus, Apex, Separate, Removing, OnStack, HeirPath;
      HeirStart(p, t, root, mem);
      var heir := it.Link(true);
      Push(up, upd, length, it, true, t.entry, t.left, p);
      top := length + 1;
      q, c := Step(p, it, t.entry, true, t.left), t.right;
      while heir.Link(false) != null
        invariant mem == old(mem) && InHeap(mem) && root == old(root)
        invariant c.Bin? && heir == c.node && Seeks(q, p, c, t, root, mem)
        invariant top + Height(c) + 1 < MAX_HEIGHT && top > 0 && OnStack(q, up[..top], upd[..top])
        decreases c
      {
        assert Holds(heir, mem[heir]);
        HeirStep(q, p, c, t, root, mem);
        Push(up, upd, top, heir, false, c.entry, c.right, q);
        top := top + 1;
        q, c := Step(q, heir, c.entry, false, c.right), c.left;
        heir := heir.Link(false);
      }
      q := MoveHeir(it, heir, up, upd, top, q, p, c, t);
      h := Height(c);
      c := c.right;
    }

    /** Copy the heir's data into `it` and unlink the heir's node. */
    method MoveHeir(it: Node, heir: Node, up: array<Node?>, upd: array<bool>, top: nat,
                    ghost q0: Path, ghost p: Path, ghost c: Tree, ghost t: Tree)
      returns (ghost q: Path)
      requires InHeap(mem) && t.Bin? && t.node == it && c.Bin? && c.node == heir && c.left.Nil?
      requires Seeks(q0, p, c, t, root, mem)
      requires 0 < top <= up.Length == upd.Length && OnStack(q0, up[..top], upd[..top])
      modifies this`root, this`mem, mem.Keys
      ensures OnStack(q, up[..top], upd[..top])
      ensures InHeap(mem) && mem.Keys <= old(mem.Keys) && Removing(q, c.right, Height(c), false, root, mem)
      ensures Whole(q, c.right) == Before(p) + Entries(t.left) + (Entries(t.right) + After(p))
    {
      hide Focus, Apex, Separate, Removing, Whole;
      var last: Node := up[top - 1];
      CopyHeir(q0, p, c, it, t.entry, t.left, root, mem);
      WithEntryStack(q0, it, c.entry, up[..top], upd[..top]);
      assert Holds(heir, mem[heir]);
      assert Holds(it, mem[it]);
      it.entry := heir.entry;
      mem := mem[it := mem[it].(entry := c.entry)];
      q := WithEntry(q0, it, c.entry);
      Unlink(heir, true, last, last == it, q, c);
    }

    /** The stored height of the last path node. */
    method UpdateLast(n: Node, d: bool, ghost p: Path, ghost t: Tree)
      requires InHeap(mem) && p.Step? && n == p.node && d == p.dir && Readable(p, t, mem)
      modifies this`mem, mem.Keys
      ensures InHeap(mem) && mem == Rebalanced(p, t, old(mem))
    {
      UpdateBalance(n, d, mem);
      mem := Rebalanced(p, t, mem);
    }

    /** One iteration of the walk back after a removal, at node `n`, whose side `d` may have shrunk. */
    method RemoveUp(n: Node, d: bool, parent: Node?, pd: bool, ghost p: Path, ghost t: Tree, ghost h: int)
      returns (done: bool, ghost t': Tree)
      requires InHeap(mem) && p.Step? && Removing(p, t, h, false, root, mem)
      requires n == p.node && d == p.dir && parent == Tip(p.parent) && (p.parent.Step? ==> pd == p.parent.dir)
      modifies this`root, this`mem, mem.Keys
      ensures InHeap(mem) && mem.Keys == old(mem.Keys)
      ensures Removing(p.parent, t', HeightAbove(p, h), done, root, mem)
      ensures Whole(p.parent, t') == Whole(p, t)
    {
      hide Removing, Rebalanceable, RebalanceCells, RotatedTop, Rebalance, Whole, Rebalanced;
      RemoveUpEven(p, t, h, root, mem);
      assert Holds(n, mem[n]);
      var lh, rh := StoredHeight(n.Link(d)), StoredHeight(n.Link(!d));
      ghost var m := mem;
      UpdateLast(n, d, p, t);
      done := lh - rh == -1;
      if lh - rh <= -2 {
        RemoveUpRotate(p, t, h, pd, root, m);
        t' := Rebalance(Node1(p, t), !d);
        Rotate(n, !d, parent, pd);
      } else {
        t' := Node1(p, t);
      }
    }

    /** avl_remove, the way back up. */
    method RetraceRemove(up: array<Node?>, upd: array<bool>, length: nat, ghost p0: Path, ghost t0: Tree, ghost h0: int)
      returns (ghost p: Path, ghost t: Tree)
      requires length <= up.Length == upd.Length && OnStack(p0, up[..length], upd[..length])
      requires InHeap(mem) && Removing(p0, t0, h0, false, root, mem)
      modifies this`root, this`mem, mem.Keys
      ensures InHeap(mem) && mem.Keys == old(mem.Keys)
      ensures Focus(p, t, Height(t), mem) && Apex(p, Root(t)) == root && Whole(p, t) == Whole(p0, t0)
    {
      hide Removing, Focus, Apex, Whole, Height, HeightAbove, InHeap, Root;
      var top: int, done := length - 1, false;
      ghost var h := h0;
      ghost var ups, upds := up[..length], upd[..length];
      p, t := p0, t0;
      assert ups[..length] == ups && upds[..length] == upds;
      while top >= 0 && !done
        invariant -1 <= top < length && up[..length] == ups && upd[..length] == upds
        invariant !done ==> OnStack(p, ups[..top + 1], upds[..top + 1])
        invariant InHeap(mem) && mem.Keys == old(mem.Keys)
        invariant Removing(p, t, h, done, root, mem) && Whole(p, t) == Whole(p0, t0)
      {
        assert ups[..top + 1][..top] == ups[..top] && upds[..top + 1][..top] == upds[..top];
        ghost var t';
        done, t' := RemoveUp(up[top], upd[top], if top != 0 then up[top - 1] else null,
                             if top != 0 then upd[top - 1] else false, p, t, h);
        p, t, h := p.parent, t', HeightAbove(p, h);
        top := top - 1;
      }
      RemovingEnds(p, t, h, done, root, mem);
    }

    /** Take out the node found: directly, or by way of its in-order successor. */
    method TakeOut(it: Node, up: array<Node?>, upd: array<bool>, length: nat, ghost p: Path, ghost t: Tree)
      returns (top: nat, ghost q: Path, ghost c: Tree, ghost h: int)
      requires InHeap(mem) && t.Bin? && t.node == it && it in mem
      requires mem[it].left == Root(t.left) && mem[it].right == Root(t.right)
      requires Focus(p, t, Height(t), mem) && Apex(p, Root(t)) == root
      requires up.Length == upd.Length == MAX_HEIGHT && length + Height(t) + 1 < MAX_HEIGHT
      requires OnStack(p, up[..length], upd[..length])
      modifies this`root, this`mem, mem.Keys, up, upd
      ensures top <= MAX_HEIGHT && OnStack(q, up[..top], upd[..top])
      ensures InHeap(mem) && mem.Keys <= old(mem.Keys) && Removing(q, c, h, false, root, mem)
      ensures Whole(q, c) == Before(p) + Entries(t.left) + (Entries(t.right) + After(p))
    {
      hide Focus, Removing, Apex, Whole;
      assert Holds(it, mem[it]);
      if !(it.left != null && it.right != null) {
        var dir := it.left == null;
        UnlinkWhole(p, t, dir);
        Unlink(it, dir, if length > 0 then up[length - 1] else null, length > 0 && upd[length - 1], p, t);
        top, q, c, h := length, p, Child(t, dir), Height(t);
      } else {
        top, q, c, h := ReplaceByHeir(it, up, upd, length, p, t);
      }
    }

    /** avl_remove. The pointer that C returns is the entry that was taken out, at
        position `at` of the contents, or nothing. An empty tree is not allowed. */
    method Remove(key: nat) returns (r: Option<Entry>, ghost at: int)
      requires Valid() && root != null && |Contents()| < MAX_NODES
      modifies this, mem.Keys
      ensures Valid() && mem.Keys <= old(mem.Keys)
      ensures r.None? ==> Absent(Contents(), key) && root == old(root) && shape == old(shape) && mem == old(mem)
      ensures r.Some? ==> r.value.key == key && RemovedAt(old(Contents()), at, Contents())
      ensures r.Some? ==> old(Contents())[at] == r.value
    {
      hide Seeking, Focus, Linked, Distinct, Balanced, Sorted, Removing, Entries, Apex, Whole, OnStack, RemovedAt,
           Absent;
      var up, upd := new Node?[MAX_HEIGHT], new bool[MAX_HEIGHT];
      ghost var p, t, h;
      var it, top;
      it, top, p, t := PathForRemove(key, up, upd);
      if it == null {
        SeekFails(p, root, key, Contents(), mem);
        return None, -1;
      }
      SeekEnds(p, t, root, key, Contents(), mem);
      assert Holds(it, mem[it]);
      r, at := Some(it.entry), |Before(p) + Entries(t.left)|;
      top, p, t, h := TakeOut(it, up, upd, top, p, t);
      p, t := RetraceRemove(up, upd, top, p, t, h);
      RemovedAtKeeps(old(Contents()), at, Whole(p, t));
      CloseTree(p, t);
    }
  }
}
