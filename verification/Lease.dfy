/**
 The virtual addresses a gateway leases to its tunnel clients
 (compiled-tools/bmx/bmxd/posix/tunnel.c:1321-1435). Addresses are in host byte order.
 */
module Lease {
  import opened Wrappers

  datatype Client = Client(addr: nat, lastKeepAlive: nat)

  /** One slot per host part of the tunnel network. */
  type Slots = seq<Option<Client>>

  predicate Held(s: Slots, i: nat, c: nat) { i < |s| && s[i].Some? && s[i].value.addr == c }

  /** Slot 0 is the gateway's own, and no client has two slots. */
  ghost predicate Valid(s: Slots)
  {
    && |s| >= 3 && s[0] == None
    && forall i, j, c :: Held(s, i, c) && Held(s, j, c) ==> i == j
  }

  /** `a & my_tun_netmask` and `a & ~my_tun_netmask`, for a network of size + 1 addresses. */
  function NetworkOf(a: nat, size: nat): nat { a / (size + 1) * (size + 1) }

  function HostOf(a: nat, size: nat): (h: nat)
    ensures h <= size
  {
    a % (size + 1)
  }

  /** The host part a client asks for, 0 if it is not one that can be leased. */
  function Preferred(pref: nat, tunIp: nat, size: nat): nat
    requires size > 0
  {
    if NetworkOf(pref, size) != NetworkOf(tunIp, size) || HostOf(pref, size) == size then 0 else HostOf(pref, size)
  }

  /** Where the search for a client's slot begins. */
  function Start(client: nat, size: nat): (i: nat)
    requires size > 1
    ensures 1 <= i < size
  {
    client % (size - 1) + 1
  }

  /** Slots are searched from the start to the end, then from 1 to the start. */
  predicate Before(i: nat, j: nat, start: nat)
  {
    if (i >= start) == (j >= start) then i < j else i >= start
  }

  predicate Free(s: Slots, i: nat) { 1 <= i < |s| && s[i] == None }

  /** The first free slot of the search. */
  ghost predicate FirstFree(s: Slots, start: nat, i: nat)
  {
    Free(s, i) && forall j :: Free(s, j) && j != i ==> Before(i, j, start)
  }

  /**
   What a request is answered with: the client's slot if it has one, else the slot it prefers if free,
   else the first free one.
   */
  ghost predicate Granted(s: Slots, client: nat, pref: nat, i: nat)
    requires |s| > 1
  {
    if exists j :: Held(s, j, client) then Held(s, i, client)
    else if Free(s, pref) then i == pref
    else FirstFree(s, Start(client, |s|), i)
  }

  ghost predicate NothingLeft(s: Slots, client: nat)
  {
    forall i :: 1 <= i < |s| ==> s[i].Some? && s[i].value.addr != client
  }

  /** gws_get_ip_addr; the address that is returned is in the tunnel network. */
  method GetIpAddr(client: nat, prefAddr: nat, list: array<Option<Client>>, tunIp: nat, now: nat)
    returns (ok: bool, addr: nat)
    requires Valid(list[..])
    modifies list
    ensures Valid(list[..])
    ensures !ok <==> NothingLeft(old(list[..]), client)
    ensures !ok ==> list[..] == old(list[..]) && addr == 0
    ensures ok ==> var i := HostOf(addr, list.Length);
      && NetworkOf(addr, list.Length) == NetworkOf(tunIp, list.Length)
      && 1 <= i < list.Length && Granted(old(list[..]), client, Preferred(prefAddr, tunIp, list.Length), i)
      && list[..] == old(list[..])[i := Some(Client(client, now))]
  {
    hide Valid, Held, NetworkOf, HostOf, Preferred, Start, Before, Free, FirstFree, Granted, NothingLeft, Scanned,
         Passed;
    var iMax := list.Length;
    SizeOf(list[..]);
    var base := NetworkOf(tunIp, iMax);
    var pref := prefAddr;
    if NetworkOf(pref, iMax) != base { pref := 0; }
    var iPref := HostOf(pref, iMax);
    if iPref >= iMax { iPref := 0; }
    PrefIs(prefAddr, tunIp, iMax);
    ghost var s := list[..];
    if iPref > 0 && list[iPref].Some? && list[iPref].value.addr == client {
      list[iPref] := Some(Client(client, now));
      HeldIs(s, iPref, client);
      Answered(s, iPref, client, prefAddr, tunIp, now);
      return true, pref;
    } else if iPref > 0 && list[iPref].Some? && list[iPref].value.addr != client {
      iPref := 0;
    }
    var start := client % (iMax - 1) + 1;
    StartIs(client, iMax);
    var firstFree := 0;
    var cycle := 0;
    ScanBegins(s, client, start);
    while cycle <= 1
      invariant 0 <= cycle <= 2 && list[..] == s
      invariant Scanned(s, client, start, firstFree, cycle, if cycle == 0 then start else 1)
      decreases 2 - cycle
    {
      var i, end := if cycle == 0 then start else 1, if cycle == 0 then iMax else start;
      while i < end
        invariant (if cycle == 0 then start else 1) <= i <= end && list[..] == s
        invariant Scanned(s, client, start, firstFree, cycle, i)
        decreases end - i
      {
        if list[i].Some? && list[i].value.addr == client {
          list[i] := Some(Client(client, now));
          HeldIs(s, i, client);
          Answered(s, i, client, prefAddr, tunIp, now);
          return true, base + i;
        }
        ScanStep(s, client, start, firstFree, cycle, i);
        if firstFree == 0 && list[i] == None {
          firstFree := i;
        }
        i := i + 1;
      }
      ScanTurn(s, client, start, firstFree, cycle, i);
      cycle := cycle + 1;
    }
    ScanEnds(s, client, start, firstFree);
    if iPref > 0 && list[iPref] == None {
      list[iPref] := Some(Client(client, now));
      FreeIs(s, iPref);
      Taken(s, iPref, client, prefAddr, tunIp, now);
      return true, base + iPref;
    }
    if firstFree == 0 { return false, 0; }
    list[firstFree] := Some(Client(client, now));
    assert Preferred(prefAddr, tunIp, iMax) == 0 || s[Preferred(prefAddr, tunIp, iMax)].Some?;
    NotFree(s, Preferred(prefAddr, tunIp, iMax));
    Taken(s, firstFree, client, prefAddr, tunIp, now);
    return true, base + firstFree;
  }

  // ----- the search -----

  /** The slots that the search has looked at when cycle `cycle` is at slot i. */
  predicate Passed(j: nat, cycle: int, start: nat, i: nat, size: nat)
  {
    if cycle == 0 then start <= j < i
    else if cycle == 1 then start <= j < size || 1 <= j < i
    else 1 <= j < size
  }

  /** No slot passed is the client's, and firstFree is the first free one passed, 0 if there is none. */
  ghost predicate Scanned(s: Slots, client: nat, start: nat, firstFree: nat, cycle: int, i: nat)
  {
    && (forall j :: Passed(j, cycle, start, i, |s|) ==> !Held(s, j, client))
    && (firstFree == 0 ==> forall j :: Passed(j, cycle, start, i, |s|) ==> !Free(s, j))
    && (firstFree != 0 ==> FirstFree(s, start, firstFree))
  }

  lemma ScanBegins(s: Slots, client: nat, start: nat)
    ensures Scanned(s, client, start, 0, 0, start)
  {
  }

  lemma ScanStep(s: Slots, client: nat, start: nat, firstFree: nat, cycle: int, i: nat)
    requires Scanned(s, client, start, firstFree, cycle, i) && 1 <= start < |s| && 0 <= cycle <= 1
    requires if cycle == 0 then start <= i < |s| else 1 <= i < start
    requires !(s[i].Some? && s[i].value.addr == client)
    ensures Scanned(s, client, start, if firstFree == 0 && s[i] == None then i else firstFree, cycle, i + 1)
  {
    assert forall j :: Passed(j, cycle, start, i + 1, |s|) ==> Passed(j, cycle, start, i, |s|) || j == i;
    if firstFree == 0 && s[i] == None {
      forall j | Free(s, j) && j != i ensures Before(i, j, start) {
        assert !Passed(j, cycle, start, i, |s|);
      }
    }
  }

  lemma ScanTurn(s: Slots, client: nat, start: nat, firstFree: nat, cycle: int, i: nat)
    requires Scanned(s, client, start, firstFree, cycle, i) && 1 <= start < |s| && 0 <= cycle <= 1
    requires i == if cycle == 0 then |s| else start
    ensures Scanned(s, client, start, firstFree, cycle + 1, 1)
  {
    assert forall j :: Passed(j, cycle + 1, start, 1, |s|) ==> Passed(j, cycle, start, i, |s|);
  }

  lemma ScanEnds(s: Slots, client: nat, start: nat, firstFree: nat)
    requires Valid(s) && Scanned(s, client, start, firstFree, 2, 1)
    ensures forall j :: !Held(s, j, client)
    ensures firstFree == 0 ==> NothingLeft(s, client)
    ensures firstFree != 0 ==> FirstFree(s, start, firstFree) && Free(s, firstFree)
  {
    forall j: nat ensures !Held(s, j, client) {
      if 1 <= j < |s| { assert Passed(j, 2, start, 1, |s|); }
    }
    if firstFree == 0 {
      forall j | 1 <= j < |s| ensures s[j].Some? && s[j].value.addr != client {
        assert Passed(j, 2, start, 1, |s|);
        assert !Free(s, j) && !Held(s, j, client);
      }
    }
  }

  // ----- the answer -----

  lemma SizeOf(s: Slots)
    requires Valid(s)
    ensures |s| >= 3
  {
  }

  lemma HeldIs(s: Slots, i: nat, client: nat)
    requires i < |s| && s[i].Some? && s[i].value.addr == client
    ensures Held(s, i, client)
  {
  }

  lemma FreeIs(s: Slots, i: nat)
    requires 1 <= i < |s| && s[i] == None
    ensures Free(s, i)
  {
  }

  lemma NotFree(s: Slots, i: nat)
    requires i < |s| && (i == 0 || s[i].Some?)
    ensures !Free(s, i)
  {
  }

  lemma StartIs(client: nat, size: nat)
    requires size > 1
    ensures Start(client, size) == client % (size - 1) + 1
  {
  }

  /** The client of a slot gets its address, with the lease renewed. */
  lemma Answered(s: Slots, i: nat, client: nat, pref: nat, tunIp: nat, now: nat)
    requires Valid(s) && Held(s, i, client)
    ensures i > 0 && Valid(s[i := Some(Client(client, now))]) && Granted(s, client, Preferred(pref, tunIp, |s|), i)
    ensures !NothingLeft(s, client)
    ensures InNetwork(tunIp, |s|, NetworkOf(tunIp, |s|) + i, i)
    ensures Preferred(pref, tunIp, |s|) == i ==> InNetwork(tunIp, |s|, pref, i)
  {
    hide NetworkOf, HostOf, Start, Before;
    var t := s[i := Some(Client(client, now))];
    assert forall j, c :: Held(t, j, c) <==> Held(s, j, c);
    AddressIn(tunIp, |s|, i);
  }

  /** A new client gets the slot it prefers if that is free, the first free one otherwise. */
  lemma Taken(s: Slots, i: nat, client: nat, pref: nat, tunIp: nat, now: nat)
    requires Valid(s) && Free(s, i) && (forall j :: !Held(s, j, client))
    requires var p := Preferred(pref, tunIp, |s|);
      i == p || (!Free(s, p) && FirstFree(s, Start(client, |s|), i))
    ensures i > 0 && Valid(s[i := Some(Client(client, now))]) && Granted(s, client, Preferred(pref, tunIp, |s|), i)
    ensures !NothingLeft(s, client)
    ensures InNetwork(tunIp, |s|, NetworkOf(tunIp, |s|) + i, i)
  {
    hide NetworkOf, HostOf, Start, Before;
    var t := s[i := Some(Client(client, now))];
    assert forall j, c :: Held(t, j, c) <==> Held(s, j, c) || (j == i && c == client);
    AddressIn(tunIp, |s|, i);
  }

  /** The address is host i of the tunnel network. */
  predicate InNetwork(tunIp: nat, size: nat, a: nat, i: nat)
  {
    NetworkOf(a, size) == NetworkOf(tunIp, size) && HostOf(a, size) == i
  }

  lemma AddressIn(tunIp: nat, size: nat, i: nat)
    requires i < size
    ensures InNetwork(tunIp, size, NetworkOf(tunIp, size) + i, i)
  {
    DivUnique(NetworkOf(tunIp, size) + i, size + 1, tunIp / (size + 1), i);
  }

  lemma DivUnique(a: nat, n: nat, q: nat, r: nat)
    requires n > 0 && a == q * n + r && r < n
    ensures a / n == q && a % n == r
  {
    var d := a / n - q;
    assert d * n == r - a % n;
    assert d > 0 ==> d * n >= n;
    assert d < 0 ==> d * n <= 0 - n;
  }

  lemma PrefIs(pref: nat, tunIp: nat, size: nat)
    requires size > 1
    ensures Preferred(pref, tunIp, size) < size
    ensures Preferred(pref, tunIp, size) ==
      (var p := if NetworkOf(pref, size) != NetworkOf(tunIp, size) then 0 else pref;
       if HostOf(p, size) >= size then 0 else HostOf(p, size))
    ensures HostOf(0, size) == 0
  {
    hide NetworkOf;
  }

  /** A client that has no slot gets the address it asks for, if that is a free one of the tunnel network. */
  lemma PreferenceMet(s: Slots, client: nat, tunIp: nat, h: nat, i: nat)
    requires Valid(s) && 1 <= h < |s| && s[h] == None && forall j :: !Held(s, j, client)
    requires Granted(s, client, Preferred(tunIp / (|s| + 1) * (|s| + 1) + h, tunIp, |s|), i)
    ensures i == h
  {
    AddressIn(tunIp, |s|, h);
    hide NetworkOf, HostOf, Start, Before;
    assert tunIp / (|s| + 1) * (|s| + 1) == NetworkOf(tunIp, |s|) by { NetworkIs(tunIp, |s|); }
  }

  lemma NetworkIs(a: nat, size: nat)
    ensures NetworkOf(a, size) == a / (size + 1) * (size + 1)
  {
  }

  /** An address outside the network, the network's own and its last one are not preferences that count. */
  lemma NoPreference(s: Slots, client: nat, tunIp: nat, pref: nat, i: nat)
    requires Valid(s) && (forall j :: !Held(s, j, client)) && Granted(s, client, Preferred(pref, tunIp, |s|), i)
    requires pref / (|s| + 1) != tunIp / (|s| + 1) || pref % (|s| + 1) == 0 || pref % (|s| + 1) == |s|
    ensures FirstFree(s, client % (|s| - 1) + 1, i)
  {
    PreferredNone(pref, tunIp, |s|);
    hide NetworkOf, HostOf, Before, Preferred;
  }

  lemma PreferredNone(pref: nat, tunIp: nat, size: nat)
    requires size > 0
    requires pref / (size + 1) != tunIp / (size + 1) || pref % (size + 1) == 0 || pref % (size + 1) == size
    ensures Preferred(pref, tunIp, size) == 0
  {
    SameMultiple(pref / (size + 1), tunIp / (size + 1), size + 1);
  }

  lemma SameMultiple(p: nat, q: nat, n: nat)
    requires n > 0
    ensures p * n == q * n <==> p == q
  {
    var d := p - q;
    assert p * n - q * n == d * n;
    assert d > 0 ==> d * n >= n;
    assert d < 0 ==> d * n <= 0 - n;
  }

  /** The answer is determined: there is one slot at most that Granted allows. */
  lemma GrantedUnique(s: Slots, client: nat, pref: nat, i: nat, j: nat)
    requires Valid(s) && Granted(s, client, pref, i) && Granted(s, client, pref, j)
    ensures i == j
  {
    BeforeOneWay(i, j, Start(client, |s|));
    hide Start, Before;
  }

  lemma BeforeOneWay(i: nat, j: nat, start: nat)
    ensures !(Before(i, j, start) && Before(j, i, start))
  {
  }

  // ----- expiry -----

  predicate TimedOut(c: Client, lt: nat, now: nat) { c.lastKeepAlive + lt * 1000 <= now || lt == 0 }

  function Kept(o: Option<Client>, lt: nat, now: nat): Option<Client>
  {
    if o.Some? && TimedOut(o.value, lt, now) then None else o
  }

  function Expired(s: Slots, lt: nat, now: nat): (t: Slots)
    ensures |t| == |s| && forall i :: 0 <= i < |s| ==> t[i] == Kept(s[i], lt, now)
  {
    seq(|s|, i requires 0 <= i < |s| => Kept(s[i], lt, now))
  }

  /** gws_cleanup_leased_tun_ips */
  method CleanupLeasedTunIps(lt: nat, list: array<Option<Client>>, now: nat)
    modifies list
    ensures list[..] == Expired(old(list[..]), lt, now)
  {
    var i := 0;
    while i < list.Length
      invariant 0 <= i <= list.Length
      invariant forall j :: 0 <= j < i ==> list[j] == Kept(old(list[j]), lt, now)
      invariant forall j :: i <= j < list.Length ==> list[j] == old(list[j])
    {
      if list[i].Some? {
        if list[i].value.lastKeepAlive + lt * 1000 <= now || lt == 0 {
          list[i] := None;
        }
      }
      i := i + 1;
    }
  }

  // ----- runs -----

  datatype Event = Request(client: nat, pref: nat, now: nat) | Cleanup(lt: nat, now: nat)

  /** What GetIpAddr and CleanupLeasedTunIps do to the slots. */
  ghost predicate Step(s: Slots, ev: Event, t: Slots)
    requires Valid(s)
  {
    match ev
    case Request(c, pref, now) => if NothingLeft(s, c) then t == s else exists i :: Leases(s, ev, t, i)
    case Cleanup(lt, now) => t == Expired(s, lt, now)
  }

  ghost predicate Leases(s: Slots, ev: Event, t: Slots, i: nat)
    requires Valid(s) && ev.Request?
  {
    1 <= i < |s| && Granted(s, ev.client, ev.pref, i) && t == s[i := Some(Client(ev.client, ev.now))]
  }

  lemma StepValid(s: Slots, ev: Event, t: Slots)
    requires Valid(s) && Step(s, ev, t)
    ensures Valid(t) && |t| == |s|
  {
    if ev.Cleanup? {
      assert forall j, c :: Held(t, j, c) ==> Held(s, j, c);
    } else if !NothingLeft(s, ev.client) {
      var i :| Leases(s, ev, t, i);
      assert forall j, c :: Held(t, j, c) <==> if j == i then c == ev.client else Held(s, j, c);
      forall j | Held(s, j, ev.client) ensures j == i {
        assert Held(s, i, ev.client);
      }
      hide Start, Before;
    }
  }

  /**
   A client loses its slot exactly when the collector finds its lease run out, or the gateway
   shuts down (lease time 0); nothing another client asks for can take it away.
   */
  lemma LostOnlyByExpiry(s: Slots, ev: Event, t: Slots, i: nat, c: nat)
    requires Valid(s) && Step(s, ev, t) && Held(s, i, c)
    ensures !Held(t, i, c) <==> ev.Cleanup? && (ev.lt == 0 || s[i].value.lastKeepAlive + 1000 * ev.lt <= ev.now)
    ensures ev.Request? && ev.client == c ==> t == s[i := Some(Client(c, ev.now))]
    ensures Held(t, i, c) && !(ev.Request? && ev.client == c) ==> t[i] == s[i]
  {
    if ev.Request? {
      assert i > 0;
      if NothingLeft(s, ev.client) {
        assert ev.client != c;
      } else {
        var k :| Leases(s, ev, t, k);
        if ev.client == c {
          assert Held(s, k, c);
        } else {
          assert Held(s, k, ev.client) || Free(s, k);
        }
      }
    }
  }

  ghost predicate Run(s: Slots, evs: seq<Event>, t: Slots)
    requires Valid(s)
    decreases |evs|
  {
    if evs == [] then t == s else exists u :: Valid(u) && Step(s, evs[0], u) && Run(u, evs[1..], t)
  }

  /**
   Safety over any mix of requests and collections: as long as no collection comes later than
   the lease time after `since`, from when on the lease was renewed last, the client keeps its
   slot, and whatever it asks for, that slot is what it gets.
   */
  lemma {:induction false} LeaseHolds(s: Slots, evs: seq<Event>, t: Slots, i: nat, c: nat, since: nat)
    requires Valid(s) && Run(s, evs, t) && Held(s, i, c) && s[i].value.lastKeepAlive >= since
    requires forall ev :: ev in evs && ev.Request? ==> ev.now >= since
    requires forall ev :: ev in evs && ev.Cleanup? ==> ev.lt > 0 && ev.now < since + ev.lt * 1000
    ensures Valid(t) && Held(t, i, c)
    decreases |evs|
  {
    if evs != [] {
      hide Valid, Step, Expired;
      var u :| Valid(u) && Step(s, evs[0], u) && Run(u, evs[1..], t);
      LostOnlyByExpiry(s, evs[0], u, i, c);
      LeaseHolds(u, evs[1..], t, i, c, since);
    }
  }

  /** What the request method does is the step. */
  lemma RequestSteps(s: Slots, client: nat, prefAddr: nat, tunIp: nat, now: nat, i: nat)
    requires Valid(s) && 1 <= i < |s| && Granted(s, client, Preferred(prefAddr, tunIp, |s|), i)
    ensures !NothingLeft(s, client)
    ensures Step(s, Request(client, Preferred(prefAddr, tunIp, |s|), now), s[i := Some(Client(client, now))])
  {
    hide Start, Before, Preferred;
    assert Free(s, i) || Held(s, i, client);
    assert Leases(s, Request(client, Preferred(prefAddr, tunIp, |s|), now), s[i := Some(Client(client, now))], i);
  }
}
