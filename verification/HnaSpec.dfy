/**
 The registry of announced networks (compiled-tools/bmx/bmxd/hna.c): what each operation
 does to the registered prefixes and to the announcements stored with the originators.
 */
module HnaSpec {
  import opened Arith

  const A_TYPE_NETWORK: nat := 1
  const A_TYPE_MAX: nat := 1

  /** 10.200.0.0 with the 28-bit network mask of the nodes that may announce networks. */
  const SERVERS: nat := (10 * 256 + 200) * 0x1_0000
  const SERVER_BLOCK: nat := 16

  type Addr = a: nat | a < 0x1_0000_0000 witness 0
  type Mask = m: nat | m < 64 witness 0
  type AType = t: nat | t < 4 witness 0

  /** struct hna_key: an IPv4 network and the type of its announcement. */
  datatype Prefix = Prefix(addr: Addr, mask: Mask, atype: AType)

  /** struct ext_type_hna: one announced prefix and the other bits of its entry. */
  datatype Item = Item(prefix: Prefix, spare: nat)

  datatype Owner = Mine | Other(orig: Addr)

  datatype Outcome = Done | Failed | Exit(code: nat)

  type Nodes = map<Prefix, Owner>

  /** The tree of registered prefixes and the announcement stored with each originator. */
  datatype State = State(nodes: Nodes, data: map<Addr, seq<Item>>)

  /** A mask of 1 to 32 bits and no address bit beyond it (0 bits: see README, Left out). */
  predicate ValidNet(p: Prefix) { p.mask <= 32 && p.addr % Pow2(32 - p.mask) == 0 }

  predicate Supported(p: Prefix) { p.atype <= A_TYPE_MAX }

  /** ddmesh_ignore_hna */
  predicate MayAnnounce(o: Addr) { o / SERVER_BLOCK == SERVERS / SERVER_BLOCK }

  /** add_del_hna: one prefix for one owner. */
  function AddDel(nodes: Nodes, del: bool, who: Owner, routed: bool, p: Prefix): (Nodes, Outcome)
  {
    if !Supported(p) then (nodes, Done)
    else if !del && who.Other? && !routed then (nodes, Exit(500023))
    else if del then
      if p in nodes && nodes[p] == who then (nodes - {p}, Done) else (nodes, Failed)
    else if p !in nodes then (nodes[p := who], Done)
    else if nodes[p] != who then (nodes, Exit(500091))
    else if who.Mine? then (nodes, Failed)
    else (nodes, Exit(500092))
  }

  /** The loop of update_other_hna: a failure is only logged, an exit ends the daemon. */
  function Each(nodes: Nodes, del: bool, o: Addr, routed: bool, items: seq<Item>): (Nodes, Outcome)
    decreases |items|
  {
    if items == [] then (nodes, Done)
    else
      var r := AddDel(nodes, del, Other(o), routed, items[0].prefix);
      if r.1.Exit? then r else Each(r.0, del, o, routed, items[1..])
  }

  /** update_other_hna: an empty array deletes what is stored for o, another one registers it. */
  function Update(s: State, o: Addr, routed: bool, items: seq<Item>): (State, Outcome)
  {
    if (o in s.data && s.data[o] == []) || (items != [] && o in s.data) || (items == [] && o !in s.data) then
      (s, Exit(500024))
    else if items != [] then
      var r := Each(s.nodes, false, o, routed, items);
      (State(r.0, s.data[o := items]), r.1)
    else
      var r := Each(s.nodes, true, o, routed, s.data[o]);
      if r.1.Exit? then (State(r.0, s.data), r.1) else (State(r.0, s.data - {o}), Done)
  }

  /** Position of the first item that keeps an announcement of o from being accepted. */
  predicate Bad(nodes: Nodes, o: Addr, p: Prefix)
  {
    !ValidNet(p) || Blocked(nodes, o, p)
  }

  predicate Blocked(nodes: Nodes, o: Addr, p: Prefix) { p in nodes && nodes[p] != Other(o) && Supported(p) }

  function FirstBad(nodes: Nodes, o: Addr, items: seq<Item>): (n: nat)
    ensures n <= |items|
    ensures forall i :: 0 <= i < n ==> !Bad(nodes, o, items[i].prefix)
    ensures n < |items| ==> Bad(nodes, o, items[n].prefix)
  {
    if items == [] || Bad(nodes, o, items[0].prefix) then 0 else 1 + FirstBad(nodes, o, items[1..])
  }

  predicate Changed(s: State, o: Addr, items: seq<Item>)
  {
    if o in s.data then items != s.data[o] else items != []
  }

  datatype Verdict = Accepted | Rejected | Stopped(code: nat)

  /** The checks at the beginning of cb_hna_ogm_hook; `late` are the originators not heard of in time. */
  function Checked(s: State, o: Addr, items: seq<Item>, late: set<Addr>): (State, Verdict)
  {
    if items == [] || !Changed(s, o, items) then (s, Accepted)
    else if !MayAnnounce(o) then (s, Rejected)
    else
      var n := FirstBad(s.nodes, o, items);
      if n == |items| then (s, Accepted)
      else
        var p := items[n].prefix;
        if ValidNet(p) && s.nodes[p].Other? && s.nodes[p].orig in late then
          var r := Update(s, s.nodes[p].orig, false, []);
          (r.0, if r.1.Exit? then Stopped(r.1.code) else Rejected)
        else (s, Rejected)
  }

  /** Its second part: drop what was stored, register what was announced. */
  function Replaced(s: State, o: Addr, routed: bool, items: seq<Item>): (State, Verdict)
  {
    var dropped := if o in s.data then Update(s, o, false, []) else (s, Done);
    if dropped.1.Exit? then (dropped.0, Stopped(dropped.1.code))
    else if !routed || items == [] then (dropped.0, Accepted)
    else
      var added := Update(dropped.0, o, routed, items);
      (added.0, if added.1.Exit? then Stopped(added.1.code) else Accepted)
  }

  /** cb_hna_ogm_hook; `moved` says that the OGM changed the router of o, `routed` that o has one now. */
  function Hook(s: State, o: Addr, items: seq<Item>, moved: bool, routed: bool, late: set<Addr>): (State, Verdict)
  {
    var c := Checked(s, o, items, late);
    if !c.1.Accepted? then c
    else if moved || Changed(s, o, items) then Replaced(s, o, routed, items)
    else (s, Accepted)
  }

  /** cb_hna_orig_destroy */
  function Destroy(s: State, o: Addr): (State, Outcome)
  {
    if o in s.data then Update(s, o, false, []) else (s, Done)
  }

  // ----- consistency -----

  /** The prefixes of an announcement that the registry keeps. */
  function Prefixes(items: seq<Item>): set<Prefix>
  {
    set i | 0 <= i < |items| && Supported(items[i].prefix) :: items[i].prefix
  }

  /** No supported prefix occurs twice. */
  predicate NoRepeat(items: seq<Item>)
  {
    forall i, j :: 0 <= i < j < |items| && Supported(items[i].prefix) ==> items[i].prefix != items[j].prefix
  }

  function OwnedBy(nodes: Nodes, who: Owner): set<Prefix> { set p | p in nodes && nodes[p] == who }

  /**
   Every originator owns exactly the supported prefixes of its stored announcement, only
   nodes of the server range announce, and every registered prefix is a supported network.
   */
  ghost predicate Consistent(s: State)
  {
    && (forall o :: o in s.data ==> s.data[o] != [] && MayAnnounce(o) && NoRepeat(s.data[o]))
    && (forall o: Addr :: OwnedBy(s.nodes, Other(o)) == Stored(s, o))
    && (forall p :: p in s.nodes ==> Supported(p) && ValidNet(p))
  }

  function Stored(s: State, o: Addr): set<Prefix> { if o in s.data then Prefixes(s.data[o]) else {} }

  // ----- the loop over an announcement -----

  function AddedAll(nodes: Nodes, who: Owner, ps: set<Prefix>): Nodes { nodes + map p | p in ps :: who }

  lemma PrefixesHead(items: seq<Item>)
    requires items != []
    ensures Prefixes(items) == (if Supported(items[0].prefix) then {items[0].prefix} else {}) + Prefixes(items[1..])
  {
    var rest := items[1..];
    forall i | 0 <= i < |items| && Supported(items[i].prefix)
      ensures items[i].prefix in (if Supported(items[0].prefix) then {items[0].prefix} else {}) + Prefixes(rest)
    {
      if i > 0 { assert rest[i - 1] == items[i]; }
    }
    forall i | 0 <= i < |rest| && Supported(rest[i].prefix) ensures rest[i].prefix in Prefixes(items) {
      assert items[i + 1] == rest[i];
    }
  }

  lemma NoRepeatHead(items: seq<Item>)
    requires items != []
    ensures NoRepeat(items) <==>
      NoRepeat(items[1..]) && (Supported(items[0].prefix) ==> items[0].prefix !in Prefixes(items[1..]))
  {
    var rest := items[1..];
    assert forall i :: 0 <= i < |rest| ==> rest[i] == items[i + 1];
    if NoRepeat(rest) && (Supported(items[0].prefix) ==> items[0].prefix !in Prefixes(rest)) {
      forall i, j | 0 <= i < j < |items| && Supported(items[i].prefix) ensures items[i].prefix != items[j].prefix {
        assert items[j] == rest[j - 1];
        if i > 0 { assert items[i] == rest[i - 1]; }
      }
    }
    if NoRepeat(items) {
      forall i, j | 0 <= i < j < |rest| && Supported(rest[i].prefix) ensures rest[i].prefix != rest[j].prefix {
        assert items[i + 1] == rest[i] && items[j + 1] == rest[j];
      }
    }
  }

  /**
   Registering an announcement none of whose prefixes belongs to anyone else succeeds exactly
   when no prefix is there already or comes twice, and then registers all that are supported.
   */
  lemma {:induction false} EachAdds(nodes: Nodes, o: Addr, items: seq<Item>)
    requires forall p :: p in Prefixes(items) && p in nodes ==> nodes[p] == Other(o)
    ensures var r := Each(nodes, false, o, true, items);
      && (r.1 == Done <==> NoRepeat(items) && Prefixes(items) !! nodes.Keys)
      && (r.1 == Done || r.1 == Exit(500092))
      && (r.1 == Done ==> r.0 == AddedAll(nodes, Other(o), Prefixes(items)))
    decreases |items|
  {
    hide Prefixes, NoRepeat, ValidNet;
    if items == [] {
      NothingToAdd(nodes, o);
    } else {
      var p := items[0].prefix;
      PrefixesHead(items);
      NoRepeatHead(items);
      if !Supported(p) {
        EachAdds(nodes, o, items[1..]);
      } else if p !in nodes {
        EachAdds(nodes[p := Other(o)], o, items[1..]);
        hide AddedAll;
      }
    }
  }

  lemma NothingToAdd(nodes: Nodes, o: Addr)
    ensures Prefixes([]) == {} && NoRepeat([]) && AddedAll(nodes, Other(o), {}) == nodes
  {
  }

  /** Deleting never exits, and takes out exactly the prefixes of the announcement that o owns. */
  lemma {:induction false} EachDeletes(nodes: Nodes, o: Addr, routed: bool, items: seq<Item>)
    ensures var r := Each(nodes, true, o, routed, items);
      r.1 == Done && r.0 == nodes - (Prefixes(items) * OwnedBy(nodes, Other(o)))
    decreases |items|
  {
    if items == [] {
      assert nodes - (Prefixes(items) * OwnedBy(nodes, Other(o))) == nodes;
    } else {
      var p := items[0].prefix;
      var next := AddDel(nodes, true, Other(o), routed, p).0;
      PrefixesHead(items);
      EachDeletes(next, o, routed, items[1..]);
    }
  }

  // ----- what the operations do to a consistent registry -----

  lemma DropSpec(s: State, o: Addr)
    requires Consistent(s) && o in s.data
    ensures Update(s, o, false, []) == (State(s.nodes - Prefixes(s.data[o]), s.data - {o}), Done)
    ensures Consistent(Update(s, o, false, []).0)
  {
    EachDeletes(s.nodes, o, false, s.data[o]);
    assert OwnedBy(s.nodes, Other(o)) == Stored(s, o);
    hide Prefixes, Each, NoRepeat, ValidNet, MayAnnounce;
    assert Prefixes(s.data[o]) * OwnedBy(s.nodes, Other(o)) == Prefixes(s.data[o]);
    var t := State(s.nodes - Prefixes(s.data[o]), s.data - {o});
    forall u: Addr ensures OwnedBy(t.nodes, Other(u)) == Stored(t, u) {
      assert OwnedBy(s.nodes, Other(u)) == Stored(s, u);
    }
  }

  /** What a deletion leaves alone: everything that is not owned by o. */
  lemma DropKeeps(s: State, o: Addr, who: Owner)
    requires Consistent(s) && o in s.data && who != Other(o)
    ensures OwnedBy(s.nodes - Prefixes(s.data[o]), who) == OwnedBy(s.nodes, who)
  {
    assert OwnedBy(s.nodes, Other(o)) == Stored(s, o);
    hide Prefixes;
  }

  lemma AddedOwned(nodes: Nodes, who: Owner, ps: set<Prefix>, w: Owner)
    requires ps !! nodes.Keys
    ensures OwnedBy(AddedAll(nodes, who, ps), w) == OwnedBy(nodes, w) + if w == who then ps else {}
  {
  }

  lemma AddSpec(s: State, o: Addr, items: seq<Item>)
    requires Consistent(s) && o !in s.data && items != [] && MayAnnounce(o)
    requires forall p :: p in Prefixes(items) ==> p !in s.nodes && ValidNet(p)
    ensures var r := Update(s, o, true, items);
      && (r.1 == Done || r.1 == Exit(500092))
      && (r.1 == Done <==> NoRepeat(items))
      && (r.1 == Done ==> r.0 == State(AddedAll(s.nodes, Other(o), Prefixes(items)), s.data[o := items]))
      && (r.1 == Done ==> Consistent(r.0))
  {
    hide Prefixes, Each, NoRepeat, ValidNet, MayAnnounce, OwnedBy, AddedAll;
    EachAdds(s.nodes, o, items);
    AllSupported(items);
    if NoRepeat(items) {
      var ps := Prefixes(items);
      var t := State(AddedAll(s.nodes, Other(o), ps), s.data[o := items]);
      AddedNodes(s.nodes, Other(o), ps);
      forall u: Addr ensures OwnedBy(t.nodes, Other(u)) == Stored(t, u) {
        assert OwnedBy(s.nodes, Other(u)) == Stored(s, u);
        AddedOwned(s.nodes, Other(o), ps, Other(u));
      }
    }
  }

  lemma AllSupported(items: seq<Item>)
    ensures forall p :: p in Prefixes(items) ==> Supported(p)
  {
  }

  lemma AddedNodes(nodes: Nodes, who: Owner, ps: set<Prefix>)
    ensures AddedAll(nodes, who, ps).Keys == nodes.Keys + ps
  {
  }

  /** The announcement is taken over from o: nothing in it is malformed or taken by someone else. */
  ghost predicate Passes(s: State, o: Addr, items: seq<Item>)
  {
    || items == [] || (o in s.data && items == s.data[o])
    || (InServerRange(o) && forall i :: 0 <= i < |items| ==> Fine(s, o, items[i].prefix))
  }

  /** 10.200.0.0 to 10.200.0.15 */
  predicate InServerRange(o: Addr) { 10 * 0x100_0000 + 200 * 0x1_0000 <= o < 10 * 0x100_0000 + 200 * 0x1_0000 + 16 }

  lemma ServerRange(o: Addr)
    ensures MayAnnounce(o) <==> InServerRange(o)
  {
  }

  /** No address bits beyond the mask, and nobody else has it if it is of a supported type. */
  predicate Fine(s: State, o: Addr, p: Prefix)
  {
    && p.mask <= 32 && p.addr % Pow2(32 - p.mask) == 0
    && !(p.atype <= 1 && p in s.nodes && s.nodes[p] != Other(o))
  }

  lemma FineIs(s: State, o: Addr, p: Prefix)
    ensures Fine(s, o, p) <==> !Bad(s.nodes, o, p)
  {
    hide Pow2;
  }

  /** Item n is the first that is not fine, and it is another originator's. */
  ghost predicate BlockedBy(s: State, o: Addr, items: seq<Item>, n: nat, b: Addr)
  {
    && n < |items| && (forall i :: 0 <= i < n ==> Fine(s, o, items[i].prefix)) && !Fine(s, o, items[n].prefix)
    && var p := items[n].prefix;
    && p.mask <= 32 && p.addr % Pow2(32 - p.mask) == 0 && p in s.nodes && s.nodes[p] == Other(b)
  }

  /** Originator b, which owns a prefix that o asks for, has lost its announcement. */
  predicate Evicted(s: State, o: Addr, items: seq<Item>, b: Addr, t: State)
  {
    && b in s.data && b != o && Prefixes(items) * Stored(s, b) != {}
    && t == State(s.nodes - Prefixes(s.data[b]), s.data - {b})
  }

  /**
   A refused announcement costs an originator its own exactly if that one blocks the first item
   that is not fine and is late, and costs nobody else anything.
   */
  lemma CheckedSpec(s: State, o: Addr, items: seq<Item>, late: set<Addr>)
    requires Consistent(s)
    ensures var c := Checked(s, o, items, late);
      && (c.1 == Accepted <==> Passes(s, o, items))
      && (c.1 == Accepted || c.1 == Rejected)
      && Consistent(c.0)
      && (c.1 == Accepted || !InServerRange(o) ==> c.0 == s)
      && (c.1 == Rejected && InServerRange(o) ==>
            && (forall n, b :: BlockedBy(s, o, items, n, b) && b in late ==> Evicted(s, o, items, b, c.0))
            && (c.0 == s || exists n, b :: BlockedBy(s, o, items, n, b) && b in late))
  {
    ServerRange(o);
    if items != [] && Changed(s, o, items) && MayAnnounce(o) {
      var n := FirstBad(s.nodes, o, items);
      forall i | 0 <= i < |items| ensures Fine(s, o, items[i].prefix) <==> !Bad(s.nodes, o, items[i].prefix) {
        FineIs(s, o, items[i].prefix);
      }
      if n < |items| {
        var p := items[n].prefix;
        if ValidNet(p) && s.nodes[p].Other? && s.nodes[p].orig in late {
          var b := s.nodes[p].orig;
          assert p in OwnedBy(s.nodes, Other(b)) && OwnedBy(s.nodes, Other(b)) == Stored(s, b);
          DropSpec(s, b);
          assert p in Prefixes(items) * Stored(s, b);
          assert BlockedBy(s, o, items, n, b);
        }
        OnlyFirst(s, o, items, n);
      }
    }
  }

  lemma OnlyFirst(s: State, o: Addr, items: seq<Item>, n: nat)
    requires n < |items| && (forall i :: 0 <= i < n ==> Fine(s, o, items[i].prefix)) && !Fine(s, o, items[n].prefix)
    ensures forall m, b :: BlockedBy(s, o, items, m, b) ==>
      m == n && ValidNet(items[n].prefix) && items[n].prefix in s.nodes && s.nodes[items[n].prefix] == Other(b)
  {
    hide Fine, Pow2;
  }

  /** Nothing in an accepted announcement is taken, once o's old one is gone. */
  lemma FreeAfterDrop(s: State, o: Addr, items: seq<Item>)
    requires Consistent(s) && Passes(s, o, items) && items != []
    ensures MayAnnounce(o)
    ensures forall p :: p in Prefixes(items) ==> ValidNet(p) && (p in s.nodes ==> p in Stored(s, o))
  {
    forall p | p in Prefixes(items) ensures ValidNet(p) && (p in s.nodes ==> p in Stored(s, o)) {
      var i :| 0 <= i < |items| && Supported(items[i].prefix) && items[i].prefix == p;
      assert OwnedBy(s.nodes, Other(o)) == Stored(s, o);
      if Changed(s, o, items) {
        assert !Bad(s.nodes, o, items[i].prefix);
      } else {
        assert p in OwnedBy(s.nodes, Other(o));
      }
    }
  }

  /** An accepted announcement is stored if o has a router; nobody else's prefixes change. */
  ghost predicate TakenOver(s: State, o: Addr, routed: bool, items: seq<Item>, t: State)
  {
    && t.data == (if routed && items != [] then s.data[o := items] else s.data - {o})
    && (forall w :: w != Other(o) ==> OwnedBy(t.nodes, w) == OwnedBy(s.nodes, w))
  }

  lemma ReplacedSpec(s: State, o: Addr, routed: bool, items: seq<Item>)
    requires Consistent(s) && Passes(s, o, items)
    ensures var r := Replaced(s, o, routed, items);
      && (r.1 == Stopped(500092) <==> routed && !NoRepeat(items))
      && (r.1 == Stopped(500092) || r.1 == Accepted)
      && (r.1 == Accepted ==> Consistent(r.0) && TakenOver(s, o, routed, items, r.0))
  {
    hide Prefixes, NoRepeat, ValidNet, MayAnnounce, OwnedBy, AddedAll, Consistent, Passes, Update;
    var d := if o in s.data then Update(s, o, false, []).0 else s;
    if o in s.data { DropSpec(s, o); }
    forall w | w != Other(o) ensures OwnedBy(d.nodes, w) == OwnedBy(s.nodes, w) {
      if o in s.data { DropKeeps(s, o, w); }
    }
    NothingToAdd(map[], o);
    assert s.data - {o} == d.data;
    if routed && items != [] {
      FreeAfterDrop(s, o, items);
      AddSpec(d, o, items);
      forall w | w != Other(o) && NoRepeat(items)
        ensures OwnedBy(AddedAll(d.nodes, Other(o), Prefixes(items)), w) == OwnedBy(s.nodes, w)
      {
        AddedOwned(d.nodes, Other(o), Prefixes(items), w);
      }
      assert d.data[o := items] == s.data[o := items];
    }
  }

  /**
   One OGM. The daemon exits exactly when an announcement that passes the checks is to be
   registered and repeats a supported prefix; otherwise the registry stays consistent.
   */
  lemma HookSpec(s: State, o: Addr, items: seq<Item>, moved: bool, routed: bool, late: set<Addr>)
    requires Consistent(s)
    ensures var r := Hook(s, o, items, moved, routed, late);
      var changed := if o in s.data then items != s.data[o] else items != [];
      && (r.1.Stopped? <==> Passes(s, o, items) && (moved || changed) && routed && !NoRepeat(items))
      && (r.1.Stopped? ==> r.1.code == 500092)
      && (r.1 == Rejected <==> !Passes(s, o, items))
      && (!r.1.Stopped? ==> Consistent(r.0))
      && (r.1 == Accepted && (moved || changed) ==> TakenOver(s, o, routed, items, r.0))
      && (r.1 == Accepted && !moved && !changed ==> r.0 == s)
  {
    CheckedSpec(s, o, items, late);
    if Passes(s, o, items) { ReplacedSpec(s, o, routed, items); }
    hide Prefixes, NoRepeat, Consistent, Passes, Checked, Replaced, TakenOver;
  }

  /** The smallest input that reaches the exit: one host announced twice in an OGM. */
  lemma HostTwice(host: Addr)
    ensures var net := Item(Prefix(host, 32, A_TYPE_NETWORK), 0);
      Hook(State(map[], map[]), SERVERS + 1, [net, net], false, true, {}).1 == Stopped(500092)
  {
    var s, net := State(map[], map[]), Item(Prefix(host, 32, A_TYPE_NETWORK), 0);
    var items := [net, net];
    EmptyConsistent();
    assert ValidNet(net.prefix);
    assert !NoRepeat(items) by { assert items[0].prefix == items[1].prefix; }
    assert Passes(s, SERVERS + 1, items);
    hide Hook, Consistent, Passes;
    HookSpec(s, SERVERS + 1, items, false, true, {});
  }

  // ----- runs -----

  datatype Event =
    | Ogm(orig: Addr, items: seq<Item>, moved: bool, routed: bool, late: set<Addr>)
    | Flush(orig: Addr)
    | OwnAdd(net: Prefix)
    | OwnDel(net: Prefix)

  /** opt_hna: an own network is announced unless it is registered already. */
  function Own(s: State, del: bool, p: Prefix): (State, Outcome)
  {
    if !del && p in s.nodes then (s, Failed)
    else var r := AddDel(s.nodes, del, Mine, false, p); (State(r.0, s.data), r.1)
  }

  /** A refused OGM also flushes its originator. */
  function Step(s: State, ev: Event): (State, Verdict)
  {
    match ev
    case Ogm(o, items, moved, routed, late) =>
      var r := Hook(s, o, items, moved, routed, late);
      if r.1 == Rejected then
        var d := Destroy(r.0, o);
        (d.0, if d.1.Exit? then Stopped(d.1.code) else Rejected)
      else r
    case Flush(o) =>
      var d := Destroy(s, o);
      (d.0, if d.1.Exit? then Stopped(d.1.code) else Accepted)
    case OwnAdd(p) =>
      var r := Own(s, false, p);
      (r.0, if r.1.Exit? then Stopped(r.1.code) else if r.1 == Failed then Rejected else Accepted)
    case OwnDel(p) =>
      var r := Own(s, true, p);
      (r.0, if r.1.Exit? then Stopped(r.1.code) else if r.1 == Failed then Rejected else Accepted)
  }

  /** Own networks are given with their type and without address bits beyond the mask. */
  predicate WellFormed(ev: Event)
  {
    match ev
    case OwnAdd(p) => ValidNet(p) && p.atype == A_TYPE_NETWORK
    case OwnDel(p) => p.atype == A_TYPE_NETWORK
    case _ => true
  }

  function RunAll(s: State, evs: seq<Event>): (State, Verdict)
    decreases |evs|
  {
    if evs == [] then (s, Accepted)
    else
      var r := Step(s, evs[0]);
      if r.1.Stopped? then r else RunAll(r.0, evs[1..])
  }

  lemma OwnSpec(s: State, del: bool, p: Prefix)
    requires Consistent(s) && Supported(p) && (del || ValidNet(p))
    ensures var r := Own(s, del, p);
      && Consistent(r.0) && !r.1.Exit? && r.0.data == s.data
      && (r.1 == Done <==> if del then p in s.nodes && s.nodes[p] == Mine else p !in s.nodes)
      && OwnedBy(r.0.nodes, Mine) == (if del then OwnedBy(s.nodes, Mine) - {p}
                                      else if p in s.nodes then OwnedBy(s.nodes, Mine)
                                      else OwnedBy(s.nodes, Mine) + {p})
  {
    var t := Own(s, del, p).0;
    forall u: Addr ensures OwnedBy(t.nodes, Other(u)) == Stored(t, u) {
      assert OwnedBy(s.nodes, Other(u)) == Stored(s, u);
    }
    hide Prefixes, NoRepeat, ValidNet;
  }

  lemma DestroySpec(s: State, o: Addr)
    requires Consistent(s)
    ensures Consistent(Destroy(s, o).0) && Destroy(s, o).1 == Done && Withdrawn(s, o, Destroy(s, o).0)
  {
    OwnedIsStored(s, o);
    hide Consistent, Update, OwnedBy;
    if o in s.data {
      DropSpec(s, o);
      forall w | w != Other(o) ensures OwnedBy(Destroy(s, o).0.nodes, w) == OwnedBy(s.nodes, w) { DropKeeps(s, o, w); }
      OwnedIsStored(Destroy(s, o).0, o);
    }
  }

  lemma OwnedIsStored(s: State, o: Addr)
    requires Consistent(s)
    ensures OwnedBy(s.nodes, Other(o)) == Stored(s, o)
  {
  }

  /** Originator o has no announcement and no prefix any more, and nobody else has lost any. */
  ghost predicate Withdrawn(s: State, o: Addr, t: State)
  {
    && t.data == s.data - {o} && OwnedBy(t.nodes, Other(o)) == {}
    && forall w :: w != Other(o) ==> OwnedBy(t.nodes, w) == OwnedBy(s.nodes, w)
  }

  lemma StepSpec(s: State, ev: Event)
    requires Consistent(s) && WellFormed(ev)
    ensures var r := Step(s, ev);
      && (r.1.Stopped? ==> r.1 == Stopped(500092) && ev.Ogm? && !NoRepeat(ev.items))
      && (!r.1.Stopped? ==> Consistent(r.0))
      && (ev.Ogm? && r.1 == Rejected ==> !Passes(s, ev.orig, ev.items) && OwnedBy(r.0.nodes, Other(ev.orig)) == {})
      && (ev.Ogm? && r.1 == Accepted ==> Passes(s, ev.orig, ev.items))
      && (ev.Flush? ==> Withdrawn(s, ev.orig, r.0))
  {
    hide Consistent, Hook, Destroy, Own, NoRepeat, Passes, TakenOver, OwnedBy;
    match ev
    case Ogm(o, items, moved, routed, late) =>
      HookSpec(s, o, items, moved, routed, late);
      if !Hook(s, o, items, moved, routed, late).1.Stopped? {
        DestroySpec(Hook(s, o, items, moved, routed, late).0, o);
      }
    case Flush(o) => DestroySpec(s, o);
    case OwnAdd(p) => OwnSpec(s, false, p);
    case OwnDel(p) => OwnSpec(s, true, p);
  }

  /**
   From an empty registry, whatever OGMs, flushes and changes of the own networks come: as
   long as no announcement repeats a supported prefix the daemon never exits, and the
   registry is consistent after every step.
   */
  lemma {:induction false} RunSpec(s: State, evs: seq<Event>)
    requires Consistent(s) && forall ev :: ev in evs ==> WellFormed(ev) && (ev.Ogm? ==> NoRepeat(ev.items))
    ensures RunAll(s, evs).1 == Accepted && Consistent(RunAll(s, evs).0)
    decreases |evs|
  {
    hide Consistent, Step, NoRepeat, WellFormed;
    if evs != [] {
      StepSpec(s, evs[0]);
      RunSpec(Step(s, evs[0]).0, evs[1..]);
    }
  }

  lemma EmptyConsistent()
    ensures Consistent(State(map[], map[]))
  {
  }

  /**
   No prefix is announced as an own network and by another node, nor by two other nodes; others
   announce only from the server range, and all that is registered are networks of a supported type.
   */
  lemma OneOwner(s: State, o: Addr, u: Addr)
    requires Consistent(s)
    ensures Stored(s, o) !! OwnedBy(s.nodes, Mine)
    ensures o != u ==> Stored(s, o) !! Stored(s, u)
    ensures forall p :: p in s.nodes ==> p.atype <= 1 && p.mask <= 32 && p.addr % Pow2(32 - p.mask) == 0
    ensures forall p :: p in s.nodes && s.nodes[p] != Mine ==> InServerRange(s.nodes[p].orig)
  {
    assert OwnedBy(s.nodes, Other(o)) == Stored(s, o) && OwnedBy(s.nodes, Other(u)) == Stored(s, u);
    forall p | p in s.nodes && s.nodes[p] != Mine ensures InServerRange(s.nodes[p].orig) {
      ServerRange(s.nodes[p].orig);
      assert p in OwnedBy(s.nodes, Other(s.nodes[p].orig));
      assert OwnedBy(s.nodes, Other(s.nodes[p].orig)) == Stored(s, s.nodes[p].orig);
    }
    hide Prefixes, MayAnnounce;
  }
}
