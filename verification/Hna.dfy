/**
 The plugin of compiled-tools/bmx/bmxd/hna.c with its state: the registered prefixes, the
 announcements stored with the originators, and the array of own networks that goes out
 with every OGM of this node.
 */
module Hna {
  import opened Sets
  import opened HnaSpec

  /** The order of the tree: the bytes of struct hna_key, the address in network order. */
  function Code(p: Prefix): nat { (p.addr * 4 + p.atype) * 64 + p.mask }

  lemma CodeInjective(p: Prefix, q: Prefix)
    requires Code(p) == Code(q)
    ensures p == q
  {
  }

  function Above(ps: set<Prefix>, c: nat): set<Prefix> { set p | p in ps && Code(p) > c }

  /** The elements of ps, each once, in the order of the tree. */
  ghost predicate Lists(a: seq<Prefix>, ps: set<Prefix>)
  {
    && (forall i, j :: 0 <= i < j < |a| ==> Code(a[i]) < Code(a[j]))
    && (set p | p in a) == ps
  }

  lemma {:induction false} ListsLength(a: seq<Prefix>, ps: set<Prefix>)
    requires Lists(a, ps)
    ensures |a| == |ps|
    decreases |a|
  {
    if a != [] {
      hide Code;
      var b, x := a[..|a| - 1], a[|a| - 1];
      assert a == b + [x];
      assert (set p | p in a) == (set p | p in b) + {x};
      forall i | 0 <= i < |b| ensures b[i] != x {
        assert Code(a[i]) < Code(a[|a| - 1]);
      }
      ListsLength(b, set p | p in b);
    }
  }

  class Plugin {
    var nodes: Nodes
    var data: map<Addr, seq<Item>>
    var enabled: nat
    var mine: array<Prefix>

    /** The array that goes out lists the own networks, each once. */
    ghost predicate Valid()
      reads this, mine
    {
      && enabled == |OwnedBy(nodes, Mine)| == mine.Length
      && Lists(mine[..], OwnedBy(nodes, Mine))
      && forall p :: p in OwnedBy(nodes, Mine) ==> Code(p) > 0
    }

    function Current(): State
      reads this
    {
      State(nodes, data)
    }

    constructor ()
      ensures Valid() && fresh(mine) && Current() == State(map[], map[])
    {
      nodes, data, enabled := map[], map[], 0;
      mine := new Prefix[0];
    }

    /** avl_next: the prefix that follows `c` in the order of the tree, if there is one. */
    method Next(c: nat) returns (found: bool, p: Prefix)
      ensures IsNext(nodes.Keys, c, found, p)
    {
      found, p := Above(nodes.Keys, c) != {}, Prefix(0, 0, 0);
      if found {
        LeastExists(Above(nodes.Keys, c), Code);
        ghost var least :| IsLeast(Above(nodes.Keys, c), Code, least);
        assert least in nodes && least in Above(nodes.Keys, c);
        p :| p in nodes && p in Above(nodes.Keys, c) && forall q :: q in Above(nodes.Keys, c) ==> Code(p) <= Code(q);
      }
    }

    /** The end of add_del_hna: the array of own networks is made anew. */
    method Recalculate()
      requires enabled == |OwnedBy(nodes, Mine)|
      requires forall p :: p in OwnedBy(nodes, Mine) ==> Code(p) > 0
      modifies this`mine
      ensures Valid() && fresh(mine)
    {
      hide Code, Above, Lists, OwnedBy, IsNext;
      mine := new Prefix[enabled](_ => Prefix(0, 0, 0));
      var len, c := 0, 0;
      var found, p := Next(c);
      NothingListed(nodes);
      assert mine[..len] == [];
      while found
        invariant len <= mine.Length == enabled == |OwnedBy(nodes, Mine)|
        invariant fresh(mine)
        invariant Lists(mine[..len], UpTo(nodes, c))
        invariant IsNext(nodes.Keys, c, found, p)
        decreases |Above(nodes.Keys, c)|
      {
        NextStep(nodes, c, p, mine[..len]);
        if nodes[p] == Mine {
          mine[len] := p;
          len := len + 1;
          assert mine[..len] == mine[..len - 1] + [p];
        }
        c := Code(p);
        found, p := Next(c);
      }
      AllListed(nodes, c, p, mine[..len]);
      assert mine[..len] == mine[..];
    }

    /** add_del_hna */
    method AddDelHna(del: bool, who: Owner, routed: bool, p: Prefix) returns (r: Outcome)
      requires Valid() && (who.Mine? ==> Code(p) > 0)
      modifies this
      ensures Valid() && (mine == old(mine) || fresh(mine))
      ensures (nodes, r) == AddDel(old(nodes), del, who, routed, p) && data == old(data)
    {
      hide Code, Lists, OwnedBy;
      if p.atype > A_TYPE_MAX { return Done; }
      if !del && who.Other? && !routed { return Exit(500023); }
      Registered(nodes, who, p);
      if del {
        if who.Mine? && p in nodes && nodes[p] == Mine {
          enabled := enabled - 1;
        } else if who.Other? && p in nodes && nodes[p].Other? && nodes[p].orig == who.orig {
        } else {
          return Failed;
        }
        nodes := nodes - {p};
      } else {
        if who.Other? && p !in nodes {
          nodes := nodes[p := who];
        } else if who.Other? && nodes[p].Other? && nodes[p].orig == who.orig {
          return Exit(500092);
        } else if who.Mine? && p !in nodes {
          nodes := nodes[p := Mine];
          enabled := enabled + 1;
        } else if who.Mine? && nodes[p] == Mine {
          return Failed;
        } else {
          return Exit(500091);
        }
      }
      if who.Mine? { Recalculate(); }
      r := Done;
    }

    /** update_other_hna */
    method UpdateOtherHna(o: Addr, routed: bool, items: seq<Item>) returns (r: Outcome)
      requires Valid()
      modifies this
      ensures Valid() && (mine == old(mine) || fresh(mine))
      ensures (Current(), r) == Update(old(Current()), o, routed, items)
    {
      var del := items == [];
      if (o in data && data[o] == []) || (items != [] && o in data) || (items == [] && o !in data) {
        return Exit(500024);
      }
      if items != [] {
        data := data[o := items];
      }
      var rest := data[o];
      ghost var all, before := rest, data;
      while rest != []
        invariant Valid() && (mine == old(mine) || fresh(mine))
        invariant data == before
        invariant Each(nodes, del, o, routed, rest) == Each(old(nodes), del, o, routed, all)
        decreases |rest|
      {
        r := AddDelHna(del, Other(o), routed, rest[0].prefix);
        if r.Exit? { return; }
        rest := rest[1..];
      }
      if items == [] {
        data := data - {o};
      }
      r := Done;
    }

    /** The checks of cb_hna_ogm_hook on an announcement that differs from the stored one. */
    method CheckAnnouncement(o: Addr, items: seq<Item>, late: set<Addr>) returns (r: Verdict)
      requires Valid() && items != [] && Changed(Current(), o, items)
      modifies this
      ensures Valid() && (mine == old(mine) || fresh(mine))
      ensures (Current(), r) == Checked(old(Current()), o, items, late)
    {
      if !MayAnnounce(o) { return Rejected; }
      var n := 0;
      while n < |items|
        invariant 0 <= n <= |items| && Current() == old(Current()) && Valid()
        invariant forall i :: 0 <= i < n ==> !Bad(nodes, o, items[i].prefix)
        invariant mine == old(mine)
      {
        var p := items[n].prefix;
        if !ValidNet(p) {
          return Rejected;
        } else if p in nodes && nodes[p] != Other(o) && p.atype <= A_TYPE_MAX {
          if nodes[p].Other? && nodes[p].orig in late {
            var x := UpdateOtherHna(nodes[p].orig, false, []);
            if x.Exit? { return Stopped(x.code); }
          }
          return Rejected;
        }
        n := n + 1;
      }
      r := Accepted;
    }

    /**
     cb_hna_ogm_hook. `given` says that the array pointer of the message is set, which may
     be so although the announcement is empty.
     */
    method OgmHook(o: Addr, items: seq<Item>, given: bool, moved: bool, routed: bool, late: set<Addr>)
      returns (r: Verdict)
      requires Valid() && (items != [] ==> given)
      requires o in data ==> data[o] != []
      modifies this
      ensures Valid() && (mine == old(mine) || fresh(mine))
      ensures (Current(), r) == Hook(old(Current()), o, items, moved, routed, late)
    {
      if items != [] && (o !in data || data[o] != items) {
        r := CheckAnnouncement(o, items, late);
        if !r.Accepted? { return; }
      }
      if moved {
        r := Replace(o, routed, items);
      } else if (given && o !in data) || (!given && o in data)
        || (given && o in data && |items| != |data[o]|)
        || (items != [] && o in data && data[o] != items)
      {
        r := Replace(o, routed, items);
      } else {
        r := Accepted;
      }
    }

    method Replace(o: Addr, routed: bool, items: seq<Item>) returns (r: Verdict)
      requires Valid()
      modifies this
      ensures Valid() && (mine == old(mine) || fresh(mine))
      ensures (Current(), r) == Replaced(old(Current()), o, routed, items)
    {
      if o in data {
        var x := UpdateOtherHna(o, false, []);
        if x.Exit? { return Stopped(x.code); }
      }
      if routed && items != [] {
        var x := UpdateOtherHna(o, routed, items);
        if x.Exit? { return Stopped(x.code); }
      }
      r := Accepted;
    }

    /** cb_hna_orig_destroy */
    method OrigDestroy(o: Addr) returns (r: Outcome)
      requires Valid()
      modifies this
      ensures Valid() && (mine == old(mine) || fresh(mine))
      ensures (Current(), r) == Destroy(old(Current()), o)
    {
      r := Done;
      if o in data { r := UpdateOtherHna(o, false, []); }
    }

    /** opt_hna for one own network */
    method OptHna(del: bool, p: Prefix) returns (r: Outcome)
      requires Valid() && p.atype == A_TYPE_NETWORK
      modifies this
      ensures Valid() && (mine == old(mine) || fresh(mine))
      ensures (Current(), r) == Own(old(Current()), del, p)
    {
      if !del && p in nodes { return Failed; }
      r := AddDelHna(del, Mine, false, p);
    }
  }

  /** How the own networks change when p is registered for `who` or deleted. */
  lemma Registered(nodes: Nodes, who: Owner, p: Prefix)
    ensures p !in nodes ==> OwnedBy(nodes[p := who], Mine) == OwnedBy(nodes, Mine) + if who.Mine? then {p} else {}
    ensures p in nodes ==> OwnedBy(nodes - {p}, Mine) == OwnedBy(nodes, Mine) - if nodes[p].Mine? then {p} else {}
    ensures p in OwnedBy(nodes, Mine) <==> p in nodes && nodes[p] == Mine
  {
  }

  ghost predicate IsNext(ps: set<Prefix>, c: nat, found: bool, p: Prefix)
  {
    && (found <==> Above(ps, c) != {})
    && (found ==> p in Above(ps, c) && forall q :: q in Above(ps, c) ==> Code(p) <= Code(q))
  }

  /** The own networks up to c in the order of the tree. */
  function UpTo(nodes: Nodes, c: nat): set<Prefix> { OwnedBy(nodes, Mine) - Above(OwnedBy(nodes, Mine), c) }

  lemma NothingListed(nodes: Nodes)
    requires forall p :: p in OwnedBy(nodes, Mine) ==> Code(p) > 0
    ensures Lists([], UpTo(nodes, 0))
  {
  }

  lemma AllListed(nodes: Nodes, c: nat, p: Prefix, a: seq<Prefix>)
    requires IsNext(nodes.Keys, c, false, p) && Lists(a, UpTo(nodes, c))
    ensures Lists(a, OwnedBy(nodes, Mine)) && |a| == |OwnedBy(nodes, Mine)|
  {
    assert Above(OwnedBy(nodes, Mine), c) <= Above(nodes.Keys, c);
    assert UpTo(nodes, c) == OwnedBy(nodes, Mine);
    ListsLength(a, OwnedBy(nodes, Mine));
  }

  lemma SmallerSet(a: set<Prefix>, b: set<Prefix>, p: Prefix)
    requires a <= b && p in b && p !in a
    ensures |a| < |b|
  {
    SubsetSize(a, b - {p});
  }

  lemma NextStep(nodes: Nodes, c: nat, p: Prefix, a: seq<Prefix>)
    requires IsNext(nodes.Keys, c, true, p) && Lists(a, UpTo(nodes, c))
    ensures p in nodes && |Above(nodes.Keys, Code(p))| < |Above(nodes.Keys, c)|
    ensures nodes[p] == Mine ==> |a| < |OwnedBy(nodes, Mine)| && Lists(a + [p], UpTo(nodes, Code(p)))
    ensures nodes[p] != Mine ==> Lists(a, UpTo(nodes, Code(p)))
  {
    NextUpTo(nodes, c, p);
    SmallerSet(Above(nodes.Keys, Code(p)), Above(nodes.Keys, c), p);
    if nodes[p] == Mine {
      ListsLength(a, UpTo(nodes, c));
      SmallerSet(UpTo(nodes, c), OwnedBy(nodes, Mine), p);
    }
    hide Code, Lists;
  }

  lemma NextUpTo(nodes: Nodes, c: nat, p: Prefix)
    requires IsNext(nodes.Keys, c, true, p)
    ensures UpTo(nodes, Code(p)) == UpTo(nodes, c) + (if nodes[p] == Mine then {p} else {})
    ensures forall q :: q in UpTo(nodes, c) ==> Code(q) < Code(p)
    ensures Above(nodes.Keys, Code(p)) <= Above(nodes.Keys, c) - {p}
  {
    forall q | q in nodes && Code(q) <= Code(p) && q != p ensures Code(q) <= c {
      if Code(q) == Code(p) { CodeInjective(p, q); }
      assert Code(q) > c ==> q in Above(nodes.Keys, c);
    }
    hide Code;
  }
}
