/**
 The chained hash table of compiled-tools/bmx/bmxd/hash.c:113-331 and its iterator, which
 allows the caller to remove the element it has just been given.
 */
module Hash {
  import opened Seqs

  /** struct element_t: the key and the rest of the data, and the next element of the chain. */
  class Element {
    const key: nat
    const value: nat
    var next: Element?

    constructor (k: nat, v: nat)
      ensures key == k && value == v && next == null
    {
      key, value, next := k, v, null;
    }
  }

  type Chain = seq<Element>

  // ----- chains of pointers, as a snapshot of the memory -----

  type Nexts = map<Element, Element?>

  /** The pointers run through the chain from its head to the null at its end. */
  ghost predicate Linked(nexts: Nexts, head: Element?, chain: Chain)
  {
    && head == (if chain == [] then null else chain[0])
    && forall k :: 0 <= k < |chain| ==>
         chain[k] in nexts && nexts[chain[k]] == if k + 1 < |chain| then chain[k + 1] else null
  }

  ghost predicate Shaped(heads: seq<Element?>, nexts: Nexts, chains: seq<Chain>)
  {
    |chains| == |heads| && forall i :: 0 <= i < |chains| ==> Linked(nexts, heads[i], chains[i])
  }

  predicate DistinctKeys(chain: Chain)
  {
    forall p, q :: 0 <= p < q < |chain| ==> chain[p].key != chain[q].key
  }

  predicate HasKey(chain: Chain, k: nat) { exists p :: 0 <= p < |chain| && chain[p].key == k }

  function Slot(h: nat -> nat, k: nat, size: nat): (i: nat)
    requires size > 0
    ensures i < size
  {
    h(k) % size
  }

  predicate InSlot(h: nat -> nat, model: map<nat, nat>, chain: Chain, i: nat, size: nat)
    requires size > 0
  {
    DistinctKeys(chain) && forall p :: 0 <= p < |chain| ==>
      Slot(h, chain[p].key, size) == i && chain[p].key in model && model[chain[p].key] == chain[p].value
  }

  /** Every element is in the chain of its key, once, and the chains hold the model. */
  ghost predicate Filed(h: nat -> nat, model: map<nat, nat>, chains: seq<Chain>)
  {
    && |chains| > 0
    && (forall i :: 0 <= i < |chains| ==> InSlot(h, model, chains[i], i, |chains|))
    && (forall k :: k in model ==> HasKey(chains[Slot(h, k, |chains|)], k))
  }

  /** An element is in one place only. */
  lemma OnePlace(h: nat -> nat, model: map<nat, nat>, chains: seq<Chain>, i: nat, p: nat, j: nat, q: nat)
    requires Filed(h, model, chains) && i < |chains| && j < |chains| && p < |chains[i]| && q < |chains[j]|
    ensures chains[i][p].key == chains[j][q].key ==> i == j && p == q
  {
    assert InSlot(h, model, chains[i], i, |chains|) && InSlot(h, model, chains[j], j, |chains|);
  }

  lemma ChainAt(heads: seq<Element?>, nexts: Nexts, h: nat -> nat, model: map<nat, nat>, chains: seq<Chain>, i: nat)
    requires Shaped(heads, nexts, chains) && Filed(h, model, chains) && i < |chains|
    ensures Linked(nexts, heads[i], chains[i]) && InSlot(h, model, chains[i], i, |chains|)
  {
  }

  /** Searching the chain of its slot finds a key of the model, and no other. */
  lemma Found(h: nat -> nat, model: map<nat, nat>, chains: seq<Chain>, k: nat)
    requires Filed(h, model, chains)
    ensures k in model <==> HasKey(chains[Slot(h, k, |chains|)], k)
    ensures forall p ::
      var c := chains[Slot(h, k, |chains|)]; 0 <= p < |c| && c[p].key == k ==> k in model && model[k] == c[p].value
  {
    var i := Slot(h, k, |chains|);
    assert InSlot(h, model, chains[i], i, |chains|);
  }

  // ----- adding and removing -----

  lemma AppendLinked(nexts: Nexts, head: Element?, chain: Chain, e: Element)
    requires Linked(nexts, head, chain) && e !in nexts
    requires forall p, q :: 0 <= p < q < |chain| ==> chain[p] != chain[q]
    ensures var n := if chain == [] then nexts[e := null] else nexts[e := null][chain[|chain| - 1] := e];
      Linked(n, if chain == [] then e else head, chain + [e])
  {
  }

  /** A chain that a changed element does not belong to stays linked. */
  lemma OtherLinked(nexts: Nexts, later: Nexts, head: Element?, chain: Chain)
    requires Linked(nexts, head, chain)
    requires forall p ::
      0 <= p < |chain| && chain[p] in nexts ==> chain[p] in later && later[chain[p]] == nexts[chain[p]]
    ensures Linked(later, head, chain)
  {
  }

  lemma AppendFiled(h: nat -> nat, model: map<nat, nat>, chains: seq<Chain>, e: Element)
    requires Filed(h, model, chains) && e.key !in model
    ensures var i := Slot(h, e.key, |chains|);
      Filed(h, model[e.key := e.value], chains[i := chains[i] + [e]])
  {
    var i, m := Slot(h, e.key, |chains|), model[e.key := e.value];
    var cs := chains[i := chains[i] + [e]];
    forall j | 0 <= j < |cs| ensures InSlot(h, m, cs[j], j, |cs|) {
      assert InSlot(h, model, chains[j], j, |chains|);
    }
    forall k | k in m ensures HasKey(cs[Slot(h, k, |cs|)], k) {
      var j := Slot(h, k, |cs|);
      if k == e.key {
        assert cs[i][|chains[i]|].key == k;
      } else {
        var p :| 0 <= p < |chains[j]| && chains[j][p].key == k;
        assert cs[j][p].key == k;
      }
    }
  }

  lemma AppendShaped(heads: seq<Element?>, nexts: Nexts, h: nat -> nat, model: map<nat, nat>, chains: seq<Chain>,
                     i: nat, e: Element)
    requires Shaped(heads, nexts, chains) && Filed(h, model, chains) && i < |chains| && e !in nexts
    ensures var c := chains[i];
      var n := if c == [] then nexts[e := null] else nexts[e := null][c[|c| - 1] := e];
      Shaped(if c == [] then heads[i := e] else heads, n, chains[i := c + [e]])
  {
    var c := chains[i];
    var n := if c == [] then nexts[e := null] else nexts[e := null][c[|c| - 1] := e];
    forall p, q | 0 <= p < q < |c| ensures c[p] != c[q] {
      OnePlace(h, model, chains, i, p, i, q);
    }
    AppendLinked(nexts, heads[i], c, e);
    forall j | 0 <= j < |chains| && j != i ensures Linked(n, heads[j], chains[j]) {
      forall p | 0 <= p < |chains[j]| && chains[j][p] in nexts ensures n[chains[j][p]] == nexts[chains[j][p]] {
        if c != [] { OnePlace(h, model, chains, j, p, i, |c| - 1); }
      }
      OtherLinked(nexts, n, heads[j], chains[j]);
    }
  }

  lemma RemoveFiled(h: nat -> nat, model: map<nat, nat>, chains: seq<Chain>, i: nat, p: nat)
    requires Filed(h, model, chains) && i < |chains| && p < |chains[i]|
    ensures Filed(h, model - {chains[i][p].key}, chains[i := DeletedAt(chains[i], p)])
    ensures chains[i][p].key in model
  {
    var k := chains[i][p].key;
    var m, cs := model - {k}, chains[i := DeletedAt(chains[i], p)];
    forall j | 0 <= j < |cs| ensures InSlot(h, m, cs[j], j, |cs|) {
      assert InSlot(h, model, chains[j], j, |chains|);
      forall q | 0 <= q < |cs[j]|
        ensures Slot(h, cs[j][q].key, |cs|) == j && cs[j][q].key in m && m[cs[j][q].key] == cs[j][q].value
      {
        var r := if j != i || q < p then q else q + 1;
        assert cs[j][q] == chains[j][r];
      }
    }
    forall x | x in m ensures HasKey(cs[Slot(h, x, |cs|)], x) {
      var j := Slot(h, x, |cs|);
      var q :| 0 <= q < |chains[j]| && chains[j][q].key == x;
      assert cs[j][if j != i || q < p then q else q - 1].key == x;
    }
    assert InSlot(h, model, chains[i], i, |chains|);
  }

  /** The pointers after element p of a chain has been taken out: its predecessor skips it. */
  function Skipped(nexts: Nexts, chain: Chain, p: nat): Nexts
    requires p < |chain| && chain[p] in nexts
  {
    if p == 0 then nexts else nexts[chain[p - 1] := nexts[chain[p]]]
  }

  lemma RemoveLinked(nexts: Nexts, head: Element?, chain: Chain, p: nat)
    requires Linked(nexts, head, chain) && p < |chain|
    requires forall q, r :: 0 <= q < r < |chain| ==> chain[q] != chain[r]
    ensures Linked(Skipped(nexts, chain, p), if p == 0 then nexts[chain[0]] else head, DeletedAt(chain, p))
  {
    var n, c := Skipped(nexts, chain, p), DeletedAt(chain, p);
    assert forall k :: 0 <= k < |c| ==> c[k] == chain[if k < p then k else k + 1];
    assert nexts[chain[p]] == if p + 1 < |chain| then chain[p + 1] else null;
    if p == 0 {
      assert nexts[chain[0]] == if c == [] then null else c[0];
    }
    forall k | 0 <= k < |c| ensures c[k] in n && n[c[k]] == if k + 1 < |c| then c[k + 1] else null {
      var m := if k < p then k else k + 1;
      assert nexts[chain[m]] == if m + 1 < |chain| then chain[m + 1] else null;
      if p > 0 && m == p - 1 {
        assert n[chain[m]] == nexts[chain[p]];
      } else if p > 0 {
        assert chain[m] != chain[p - 1];
      }
    }
    assert forall k :: 0 <= k < |c| ==> c[k] in n && n[c[k]] == if k + 1 < |c| then c[k + 1] else null;
    assert Linked(n, if p == 0 then nexts[chain[0]] else head, c);
  }

  lemma RemoveShaped(heads: seq<Element?>, nexts: Nexts, h: nat -> nat, model: map<nat, nat>, chains: seq<Chain>,
                     i: nat, p: nat)
    requires Shaped(heads, nexts, chains) && Filed(h, model, chains) && i < |chains| && p < |chains[i]|
    ensures chains[i][p] in nexts
    ensures Shaped(if p == 0 then heads[i := nexts[chains[i][0]]] else heads, Skipped(nexts, chains[i], p),
                   chains[i := DeletedAt(chains[i], p)])
  {
    var c := chains[i];
    assert Linked(nexts, heads[i], c);
    assert forall q, r :: 0 <= q < r < |c| ==> c[q] != c[r];
    RemoveLinked(nexts, heads[i], c, p);
    var n := Skipped(nexts, c, p);
    forall j | 0 <= j < |chains| && j != i ensures Linked(n, heads[j], chains[j]) {
      assert forall q :: 0 <= q < |chains[j]| && chains[j][q] in nexts ==> n[chains[j][q]] == nexts[chains[j][q]];
    }
  }

  /** The elements from position p of chain i on, chain after chain. */
  function From(chains: seq<Chain>, i: nat, p: nat): seq<Element>
    requires i < |chains| ==> p <= |chains[i]|
    decreases |chains| - i
  {
    if i >= |chains| then [] else chains[i][p..] + From(chains, i + 1, 0)
  }

  lemma FromStep(chains: seq<Chain>, i: nat, p: nat)
    requires i < |chains| && p <= |chains[i]|
    ensures p < |chains[i]| ==> From(chains, i, p) == [chains[i][p]] + From(chains, i, p + 1)
    ensures p == |chains[i]| ==> From(chains, i, p) == From(chains, i + 1, 0)
  {
    if p < |chains[i]| {
      assert chains[i][p..] == [chains[i][p]] + chains[i][p + 1..];
    }
  }

  /** Taking out an element leaves those after it. */
  lemma FromRemoved(chains: seq<Chain>, i: nat, p: nat)
    requires i < |chains| && p < |chains[i]|
    ensures From(chains[i := DeletedAt(chains[i], p)], i, p) == From(chains, i, p + 1)
  {
    var cs := chains[i := DeletedAt(chains[i], p)];
    assert cs[i][p..] == chains[i][p + 1..];
    FromSuffix(chains, cs, i + 1);
  }

  lemma {:induction false} FromSuffix(chains: seq<Chain>, cs: seq<Chain>, i: nat)
    requires |cs| == |chains| && forall j :: i <= j < |chains| ==> cs[j] == chains[j]
    ensures From(cs, i, 0) == From(chains, i, 0)
    decreases |chains| - i
  {
    if i < |chains| { FromSuffix(chains, cs, i + 1); }
  }

  function KeysIn(es: seq<Element>): seq<nat> { seq(|es|, i requires 0 <= i < |es| => es[i].key) }

  /** Walking through all chains meets every key of the model exactly once. */
  lemma AllKeysOnce(h: nat -> nat, model: map<nat, nat>, chains: seq<Chain>)
    requires Filed(h, model, chains)
    ensures var ks := KeysIn(From(chains, 0, 0));
      && (forall k :: k in ks <==> k in model)
      && forall i, j :: 0 <= i < j < |ks| ==> ks[i] != ks[j]
  {
    FromOnce(h, model, chains, 0);
    KeysOnce(h, model, chains, From(chains, 0, 0));
  }

  lemma KeysOnce(h: nat -> nat, model: map<nat, nat>, chains: seq<Chain>, es: seq<Element>)
    requires Filed(h, model, chains) && Walks(chains, 0, es)
    ensures var ks := KeysIn(es);
      && (forall k :: k in ks <==> k in model)
      && forall i, j :: 0 <= i < j < |ks| ==> ks[i] != ks[j]
  {
    forall k ensures k in KeysIn(es) <==> k in model {
      if k in model {
        var i := Slot(h, k, |chains|);
        assert HasKey(chains[i], k);
        var p :| 0 <= p < |chains[i]| && chains[i][p].key == k;
        var j :| 0 <= j < |es| && es[j] == chains[i][p];
        assert KeysIn(es)[j] == k;
      }
      if k in KeysIn(es) {
        var j :| 0 <= j < |es| && KeysIn(es)[j] == k;
        assert Within(chains, 0, es[j]);
        var i, p :| 0 <= i < |chains| && 0 <= p < |chains[i]| && chains[i][p] == es[j];
        assert InSlot(h, model, chains[i], i, |chains|);
      }
    }
  }

  /** es are the elements of the chains from n on, no key twice. */
  ghost predicate Walks(chains: seq<Chain>, n: nat, es: seq<Element>)
  {
    && (forall j :: 0 <= j < |es| ==> Within(chains, n, es[j]))
    && (forall i, p :: n <= i < |chains| && 0 <= p < |chains[i]| ==> chains[i][p] in es)
    && (forall j, k :: 0 <= j < k < |es| ==> es[j].key != es[k].key)
  }

  ghost predicate Within(chains: seq<Chain>, n: nat, e: Element)
  {
    exists i, p :: n <= i < |chains| && 0 <= p < |chains[i]| && chains[i][p] == e
  }

  lemma {:induction false} FromOnce(h: nat -> nat, model: map<nat, nat>, chains: seq<Chain>, n: nat)
    requires Filed(h, model, chains)
    ensures Walks(chains, n, From(chains, n, 0))
    decreases |chains| - n
  {
    if n < |chains| {
      hide Filed;
      var rest, here := From(chains, n + 1, 0), chains[n];
      FromOnce(h, model, chains, n + 1);
      var es := here + rest;
      assert From(chains, n, 0) == es by { assert here[0..] == here; }
      forall j | 0 <= j < |es| ensures Within(chains, n, es[j]) {
        if j < |here| {
          assert chains[n][j] == es[j];
        } else {
          assert es[j] == rest[j - |here|] && Within(chains, n + 1, rest[j - |here|]);
        }
      }
      forall i, p | n <= i < |chains| && 0 <= p < |chains[i]| ensures chains[i][p] in es {
        if i == n { assert es[p] == chains[i][p]; } else { assert chains[i][p] in rest; }
      }
      forall j, k | 0 <= j < k < |es| ensures es[j].key != es[k].key {
        if k < |here| {
        } else if j < |here| {
          assert Within(chains, n + 1, rest[k - |here|]);
          var i, p :| n + 1 <= i < |chains| && 0 <= p < |chains[i]| && chains[i][p] == rest[k - |here|];
        }
      }
    }
  }

  // ----- the table -----

  class HashIt {
    var index: int
    var bucket: Element?
    var prevBucket: Element?
    /** The slot of the table that first_bucket points to, -1 for none. */
    var firstBucket: int

    constructor ()
      ensures index == -1 && bucket == null && prevBucket == null && firstBucket == -1
    {
      index, bucket, prevBucket, firstBucket := -1, null, null, -1;
    }

    /** The iterator is at element p of chain i. */
    ghost predicate At(chains: seq<Chain>, i: nat, p: nat)
      reads this
    {
      && i < |chains| && p < |chains[i]| && index == i && bucket == chains[i][p]
      && prevBucket == (if p == 0 then null else chains[i][p - 1])
      && firstBucket == if p == 0 then i else -1
    }

    /** The element the iterator is at was number p of chain i, and has been removed. */
    ghost predicate Gone(chains: seq<Chain>, i: nat, p: nat)
      reads this
    {
      && i < |chains| && p <= |chains[i]| && index == i && bucket != null && bucket !in chains[i]
      && prevBucket == (if p == 0 then null else chains[i][p - 1])
      && firstBucket == if p == 0 then i else -1
    }
  }

  class HashTable {
    var table: array<Element?>
    var elements: nat
    const hash: nat -> nat
    ghost var chains: seq<Chain>
    ghost var nexts: Nexts
    ghost var model: map<nat, nat>

    ghost predicate Valid()
      reads this, table, nexts.Keys
    {
      && Shaped(table[..], nexts, chains) && Filed(hash, model, chains) && elements == |model|
      && forall e :: e in nexts ==> e.next == nexts[e]
    }

    /** hash_new */
    constructor (size: nat, h: nat -> nat)
      requires size > 0
      ensures Valid() && fresh(table) && nexts == map[] && model == map[] && table.Length == size && hash == h
    {
      table := new Element?[size](_ => null);
      elements, hash := 0, h;
      chains, model, nexts := seq(size, _ => []), map[], map[];
    }

    /** hash_find */
    method Find(k: nat) returns (found: bool, value: nat)
      requires Valid()
      ensures (found <==> k in model) && (found ==> value == model[k])
    {
      hide Shaped, Filed, Slot, InSlot;
      Sizes();
      var i := Slot(hash, k, table.Length);
      ChainAt(table[..], nexts, hash, model, chains, i);
      Found(hash, model, chains, k);
      ghost var chain := chains[i];
      var bucket: Element?, p: nat := table[i], 0;
      while bucket != null
        invariant p <= |chain| && bucket == (if p < |chain| then chain[p] else null)
        invariant forall q :: 0 <= q < p ==> chain[q].key != k
        decreases |chain| - p
      {
        assert bucket == chain[p];
        if bucket.key == k { return true, bucket.value; }
        NextOf(i, p);
        bucket, p := bucket.next, p + 1;
      }
      return false, 0;
    }

    lemma NextOf(i: nat, p: nat)
      requires Valid() && i < |chains| && p < |chains[i]|
      ensures chains[i][p].next == if p + 1 < |chains[i]| then chains[i][p + 1] else null
    {
      assert Linked(nexts, table[..][i], chains[i]);
    }

    lemma Sizes()
      requires Valid()
      ensures |chains| == table.Length > 0
    {
    }

    /** hash_add: fails exactly if the key is there. */
    method Add(k: nat, v: nat) returns (ok: bool)
      requires Valid()
      modifies this`elements, this`chains, this`nexts, this`model, table, nexts.Keys
      ensures Valid() && nexts.Keys >= old(nexts.Keys) && fresh(nexts.Keys - old(nexts.Keys))
      ensures ok <==> k !in old(model)
      ensures model == if ok then old(model)[k := v] else old(model)
    {
      hide Shaped, Filed, Slot, InSlot, DistinctKeys, Linked;
      Sizes();
      var i := Slot(hash, k, table.Length);
      Found(hash, model, chains, k);
      HeadIs(i);
      ghost var chain := chains[i];
      var bucket: Element?, prev: Element?, p: nat := table[i], null, 0;
      while bucket != null
        invariant p <= |chain| && bucket == (if p < |chain| then chain[p] else null)
        invariant prev == if p == 0 then null else chain[p - 1]
        invariant forall q :: 0 <= q < p ==> chain[q].key != k
        modifies {}
        decreases |chain| - p
      {
        assert bucket == chain[p];
        if bucket.key == k { return false; }
        NextOf(i, p);
        prev, bucket, p := bucket, bucket.next, p + 1;
      }
      Append(i, prev, k, v);
      return true;
    }

    /** The end of hash_add: the new element follows the last one of its chain. */
    method Append(i: nat, prev: Element?, k: nat, v: nat)
      requires Valid() && k !in model && i < |chains| && i == Slot(hash, k, |chains|)
      requires prev == if chains[i] == [] then null else chains[i][|chains[i]| - 1]
      modifies this`elements, this`chains, this`nexts, this`model, table, nexts.Keys
      ensures Valid() && nexts.Keys >= old(nexts.Keys) && fresh(nexts.Keys - old(nexts.Keys))
      ensures model == old(model)[k := v]
    {
      hide Shaped, Filed, Slot, InSlot, DistinctKeys, Linked;
      Sizes();
      ChainAt(table[..], nexts, hash, model, chains, i);
      ghost var heads, before, chain := table[..], nexts, chains[i];
      var e := new Element(k, v);
      assert e !in before;
      AppendShaped(heads, nexts, hash, model, chains, i, e);
      AppendFiled(hash, model, chains, e);
      assert table[..] == heads;
      if prev == null {
        table[i] := e;
        nexts := nexts[e := null];
      } else {
        prev.next := e;
        nexts := nexts[e := null][prev := e];
      }
      elements := elements + 1;
      chains := chains[i := chain + [e]];
      model := model[k := v];
    }

    /** hash_remove_bucket: takes out the element the iterator is at. */
    method RemoveBucket(it: HashIt, ghost i: nat, ghost p: nat)
      requires Valid() && it.At(chains, i, p)
      modifies this`elements, this`chains, this`nexts, this`model, table, nexts.Keys
      ensures Valid() && nexts.Keys == old(nexts.Keys)
      ensures chains == old(chains)[i := DeletedAt(old(chains)[i], p)] && model == old(model) - {it.bucket.key}
      ensures it.Gone(chains, i, p) && it.bucket.key in old(model)
    {
      hide Shaped, Filed, Slot, InSlot, DistinctKeys;
      Sizes();
      ghost var chain := chains[i];
      ChainAt(table[..], nexts, hash, model, chains, i);
      RemoveShaped(table[..], nexts, hash, model, chains, i, p);
      RemoveFiled(hash, model, chains, i, p);
      NotLeft(hash, model, chains, i, p);
      if it.prevBucket != null {
        it.prevBucket.next := it.bucket.next;
      } else if it.firstBucket != -1 {
        table[it.firstBucket] := it.bucket.next;
      }
      elements := elements - 1;
      nexts := Skipped(nexts, chain, p);
      chains := chains[i := DeletedAt(chain, p)];
      model := model - {it.bucket.key};
    }

    /** hash_remove */
    method Remove(k: nat) returns (found: bool)
      requires Valid()
      modifies this`elements, this`chains, this`nexts, this`model, table, nexts.Keys
      ensures Valid() && nexts.Keys == old(nexts.Keys)
      ensures found <==> k in old(model)
      ensures model == old(model) - {k}
    {
      hide Shaped, Filed, Slot, InSlot, DistinctKeys;
      Sizes();
      var it := new HashIt();
      it.index := Slot(hash, k, table.Length);
      ChainAt(table[..], nexts, hash, model, chains, it.index);
      Found(hash, model, chains, k);
      ghost var chain := chains[it.index];
      it.bucket := table[it.index];
      it.prevBucket := null;
      ghost var p: nat := 0;
      while it.bucket != null && it.bucket.key != k
        invariant it.index == Slot(hash, k, table.Length)
        invariant p <= |chain| && it.bucket == (if p < |chain| then chain[p] else null)
        invariant it.prevBucket == if p == 0 then null else chain[p - 1]
        invariant forall q :: 0 <= q < p ==> chain[q].key != k
        modifies it
        decreases |chain| - p
      {
        assert it.bucket == chain[p];
        NextOf(it.index, p);
        it.prevBucket := it.bucket;
        it.bucket := it.bucket.next;
        p := p + 1;
      }
      if it.bucket == null { return false; }
      HeadOnly(hash, model, chains, it.index, p);
      it.firstBucket := if it.bucket == table[it.index] then it.index else -1;
      RemoveBucket(it, it.index, p);
      return true;
    }

    /** hash_resize: a new table of the given size with the same elements; the old one is given up. */
    method Resize(size: nat) returns (t: HashTable)
      requires Valid() && size > 0
      ensures fresh(t) && t.Valid() && t.model == model && t.table.Length == size
    {
      hide *;
      IsFiled();
      Sizes();
      t := new HashTable(size, hash);
      ghost var done: seq<Element> := [];
      var i := 0;
      StartCopy(hash, model, chains);
      while i < table.Length
        invariant 0 <= i <= table.Length
        invariant fresh(t) && fresh(t.table) && fresh(t.nexts.Keys) && t.Valid() && t.table.Length == size
        invariant Copied(t.model, model, done) && done + From(chains, i, 0) == From(chains, 0, 0)
        decreases table.Length - i
      {
        var bucket: Element?, p: nat := table[i], 0;
        HeadIs(i);
        while bucket != null
          invariant p <= |chains[i]| && bucket == (if p < |chains[i]| then chains[i][p] else null)
          invariant fresh(t) && fresh(t.table) && fresh(t.nexts.Keys) && t.Valid() && t.table.Length == size
          invariant Copied(t.model, model, done) && done + From(chains, i, p) == From(chains, 0, 0)
          decreases |chains[i]| - p
        {
          FromStep(chains, i, p);
          CopyMore(hash, model, chains, done, From(chains, i, p + 1), bucket, t.model);
          var ok := t.Add(bucket.key, bucket.value);
          NextOf(i, p);
          done := done + [bucket];
          bucket, p := bucket.next, p + 1;
        }
        FromStep(chains, i, p);
        i := i + 1;
      }
      FromEnd(chains, i);
      CopyDone(hash, model, chains, done, t.model);
    }

    lemma HeadIs(i: nat)
      requires Valid() && i < |chains|
      ensures i < table.Length && table[i] == if chains[i] == [] then null else chains[i][0]
    {
      assert Linked(nexts, table[..][i], chains[i]);
    }

    /**
     hash_iterate: goes on to the next element, whether or not the one the iterator is at has
     been removed. (i, p) is where the search begins, (j, q) where it ends.
     */
    method Iterate(itIn: HashIt?, ghost i: nat, ghost p: nat) returns (it: HashIt?, ghost j: nat, ghost q: nat)
      requires Valid()
      requires if itIn == null then i == 0 && p == 0
          else itIn.Gone(chains, i, p) || (p > 0 && itIn.At(chains, i, p - 1))
      modifies itIn
      ensures itIn == null ==> it == null || fresh(it)
      ensures itIn != null ==> it == null || it == itIn
      ensures i < |chains| && p <= |chains[i]|
      ensures it == null <==> From(chains, i, p) == []
      ensures it != null ==> it.At(chains, j, q) && j < |chains| && q < |chains[j]|
      ensures it != null ==> From(chains, j, q) == From(chains, i, p)
    {
      hide Shaped, Filed, Slot, InSlot, DistinctKeys, From, Linked;
      Sizes();
      HeadIs(i);
      if p > 0 { NextOf(i, p - 1); }
      if p > 1 { NextOf(i, p - 2); }
      j, q := i, p;
      if itIn == null { it := new HashIt(); } else { it := itIn; }
      if it.bucket != null {
        if it.firstBucket != -1 {
          if table[it.firstBucket] != it.bucket {
            if table[it.firstBucket] != null {
              it.prevBucket := null;
              it.bucket := table[it.firstBucket];
              it.firstBucket := it.index;
              FromStep(chains, i, 0);
              return;
            } else {
              it.bucket := null;
            }
          }
        } else if it.prevBucket != null {
          if it.prevBucket.next != it.bucket {
            it.bucket := it.prevBucket;
          }
        }
      }
      FromStep(chains, i, p);
      if it.bucket != null {
        assert p > 0 && it.bucket == chains[i][p - 1];
        NextOf(i, p - 1);
        if it.bucket.next != null {
          it.prevBucket := it.bucket;
          it.bucket := it.bucket.next;
          it.firstBucket := -1;
          return;
        }
      }
      var more;
      more, j := SearchForward(it);
      q := 0;
      if !more { it := null; }
    }

    /** The end of hash_iterate: the first element of the next chain that is not empty. */
    method SearchForward(it: HashIt) returns (more: bool, ghost j: nat)
      requires Valid() && -1 <= it.index < table.Length
      modifies it
      ensures more <==> From(chains, old(it.index) + 1, 0) != []
      ensures more ==> j < |chains| && 0 < |chains[j]| && it.At(chains, j, 0)
      ensures more ==> From(chains, j, 0) == From(chains, old(it.index) + 1, 0)
    {
      hide Shaped, Filed, Slot, InSlot, DistinctKeys, From, Linked;
      Sizes();
      it.index := it.index + 1;
      ghost var rest := From(chains, it.index, 0);
      while it.index < table.Length
        invariant 0 <= it.index <= table.Length && From(chains, it.index, 0) == rest
        modifies it
        decreases table.Length - it.index
      {
        HeadIs(it.index);
        FromStep(chains, it.index, 0);
        if table[it.index] != null {
          it.prevBucket := null;
          it.bucket := table[it.index];
          it.firstBucket := it.index;
          return true, it.index;
        }
        it.index := it.index + 1;
      }
      FromEnd(chains, it.index);
      return false, 0;
    }

    /** A loop over the table whose body removes some of the elements it is given. */
    method Sweep(dead: set<nat>) returns (visited: seq<nat>)
      requires Valid()
      modifies this`elements, this`chains, this`nexts, this`model, table, nexts.Keys
      ensures Valid() && model == old(model) - dead && EachOnce(visited, old(model))
    {
      hide *;
      ghost var all := KeysIn(From(chains, 0, 0));
      ghost var todo := all;
      visited := [];
      IsFiled();
      ghost var i: nat, p: nat;
      var it: HashIt?;
      it, i, p := Iterate(null, 0, 0);
      Todo(chains, 0, 0);
      NoneYet(model, dead);
      while it != null
        invariant Valid() && table == old(table) && nexts.Keys == old(nexts.Keys)
        invariant it != null ==> fresh(it) && it.At(chains, i, p) && i < |chains| && p < |chains[i]|
        invariant it != null ==> KeysIn(From(chains, i, p)) == todo
        invariant (it == null <==> todo == []) && visited + todo == all
        invariant model == old(model) - Those(visited, dead)
        decreases |todo|
      {
        i, p := SweepOne(it, dead, i, p);
        SweepModel(old(model), visited, it.bucket.key, dead);
        visited := visited + [it.bucket.key];
        todo := todo[1..];
        Todo(chains, i, p);
        it, i, p := Iterate(it, i, p);
      }
      SweepDone(hash, old(model), old(chains), visited, dead);
    }

    lemma IsFiled()
      requires Valid()
      ensures Filed(hash, model, chains)
    {
    }

    /** The body of the loop: the element is removed or not. */
    method SweepOne(it: HashIt, dead: set<nat>, ghost i: nat, ghost p: nat) returns (ghost j: nat, ghost q: nat)
      requires Valid() && it.At(chains, i, p)
      modifies this`elements, this`chains, this`nexts, this`model, table, nexts.Keys
      ensures Valid() && nexts.Keys == old(nexts.Keys) && it.bucket != null
      ensures model == old(model) - if it.bucket.key in dead then {it.bucket.key} else {}
      ensures j < |chains| && q <= |chains[j]| && (it.Gone(chains, j, q) || (q > 0 && it.At(chains, j, q - 1)))
      ensures KeysIn(old(From(chains, i, p))) == [it.bucket.key] + KeysIn(From(chains, j, q))
    {
      hide Shaped, Filed, Slot, InSlot, DistinctKeys, From, DeletedAt, KeysIn, Linked, Skipped;
      FromStep(chains, i, p);
      KeysMore(it.bucket, From(chains, i, p + 1));
      if it.bucket.key in dead {
        FromRemoved(chains, i, p);
        RemoveBucket(it, i, p);
        return i, p;
      }
      return i, p + 1;
    }
  }

  function Those(visited: seq<nat>, dead: set<nat>): set<nat> { set k | k in visited && k in dead }

  lemma NoneYet(model: map<nat, nat>, dead: set<nat>)
    ensures model - Those([], dead) == model
  {
  }

  lemma SweepModel(model: map<nat, nat>, visited: seq<nat>, k: nat, dead: set<nat>)
    ensures (model - Those(visited, dead)) - (if k in dead then {k} else {}) == model - Those(visited + [k], dead)
  {
    assert Those(visited + [k], dead) == Those(visited, dead) + if k in dead then {k} else {};
  }

  /** Every key of the model is visited exactly once, and nothing else. */
  ghost predicate EachOnce(visited: seq<nat>, model: map<nat, nat>)
  {
    && (forall k :: k in visited <==> k in model)
    && forall a, b :: 0 <= a < b < |visited| ==> visited[a] != visited[b]
  }

  lemma SweepDone(h: nat -> nat, model: map<nat, nat>, chains: seq<Chain>, visited: seq<nat>, dead: set<nat>)
    requires Filed(h, model, chains) && visited == KeysIn(From(chains, 0, 0))
    ensures EachOnce(visited, model) && model - Those(visited, dead) == model - dead
  {
    AllKeysOnce(h, model, chains);
  }

  lemma KeysMore(e: Element, es: seq<Element>)
    ensures KeysIn([e] + es) == [e.key] + KeysIn(es)
  {
  }

  lemma Todo(chains: seq<Chain>, i: nat, p: nat)
    requires i < |chains| ==> p <= |chains[i]|
    ensures From(chains, i, p) == [] <==> KeysIn(From(chains, i, p)) == []
  {
    hide From;
  }

  /** m holds exactly the elements copied so far. */
  ghost predicate Copied(m: map<nat, nat>, model: map<nat, nat>, done: seq<Element>)
  {
    && (forall k :: k in m ==> k in model && m[k] == model[k])
    && forall k :: k in m <==> k in KeysIn(done)
  }

  lemma StartCopy(h: nat -> nat, model: map<nat, nat>, chains: seq<Chain>)
    ensures Copied(map[], model, []) && [] + From(chains, 0, 0) == From(chains, 0, 0)
  {
  }

  /** The next element is not there yet, and adds its key. */
  lemma CopyMore(h: nat -> nat, model: map<nat, nat>, chains: seq<Chain>, done: seq<Element>, rest: seq<Element>,
                 e: Element, m: map<nat, nat>)
    requires Filed(h, model, chains) && Copied(m, model, done) && done + ([e] + rest) == From(chains, 0, 0)
    ensures e.key !in m && Copied(m[e.key := e.value], model, done + [e])
    ensures (done + [e]) + rest == From(chains, 0, 0)
  {
    hide From, Filed, Walks, Within;
    var all := From(chains, 0, 0);
    FromOnce(h, model, chains, 0);
    assert all[|done|] == e;
    ElementOf(h, model, chains, all, |done|);
    assert forall j :: 0 <= j < |done| ==> all[j] == done[j];
    assert KeysIn(done + [e]) == KeysIn(done) + [e.key];
    assert e.key !in KeysIn(done);
  }

  lemma ElementOf(h: nat -> nat, model: map<nat, nat>, chains: seq<Chain>, es: seq<Element>, n: nat)
    requires Filed(h, model, chains) && Walks(chains, 0, es) && n < |es|
    ensures es[n].key in model && model[es[n].key] == es[n].value
    ensures forall j :: 0 <= j < n ==> es[j].key != es[n].key
  {
    assert Within(chains, 0, es[n]);
    var i, p :| 0 <= i < |chains| && 0 <= p < |chains[i]| && chains[i][p] == es[n];
    assert InSlot(h, model, chains[i], i, |chains|);
    hide Filed;
  }

  lemma CopyDone(h: nat -> nat, model: map<nat, nat>, chains: seq<Chain>, done: seq<Element>, m: map<nat, nat>)
    requires Filed(h, model, chains) && Copied(m, model, done) && done + [] == From(chains, 0, 0)
    ensures m == model
  {
    AllKeysOnce(h, model, chains);
    assert done + [] == done;
  }

  lemma FromEnd(chains: seq<Chain>, i: nat)
    requires i >= |chains|
    ensures From(chains, i, 0) == []
  {
  }

  lemma NotLeft(h: nat -> nat, model: map<nat, nat>, chains: seq<Chain>, i: nat, p: nat)
    requires Filed(h, model, chains) && i < |chains| && p < |chains[i]|
    ensures chains[i][p] !in DeletedAt(chains[i], p)
  {
    assert forall q :: 0 <= q < |DeletedAt(chains[i], p)| ==> DeletedAt(chains[i], p)[q] != chains[i][p];
  }

  /** Only the first element of a chain is the one that the table points to. */
  lemma HeadOnly(h: nat -> nat, model: map<nat, nat>, chains: seq<Chain>, i: nat, p: nat)
    requires Filed(h, model, chains) && i < |chains| && p < |chains[i]|
    ensures chains[i][p] == chains[i][0] ==> p == 0
  {
  }
}
