/**
 The round trip of a document through the shell's environment, with the exact condition
 under which it is faithful.
 */
module JsonRoundTrip {
  import opened Wrappers
  import opened Decimal
  import opened JsonNames
  import opened JsonTree
  import opened JsonStore
  import opened JsonRun
  import opened JsonRebuild

  // ----- key lists -----

  function NonEmpty(keys: seq<string>): seq<string>
  {
    if keys == [] then [] else (if keys[0] == "" then [] else [keys[0]]) + NonEmpty(keys[1..])
  }

  lemma {:induction false} WordThenBlank(k: string, s: string)
    requires ' ' !in k && (s == "" || s[0] == ' ')
    ensures WordPrefix(k + s) == k
  {
    if k == "" {
      assert k + s == s;
    } else {
      assert (k + s)[1..] == k[1..] + s;
      WordThenBlank(k[1..], s);
    }
  }

  lemma FrontWord(k: string, s: string)
    requires ' ' !in k && (s == "" || s[0] == ' ')
    ensures Words(" " + k + s) == (if k == "" then [] else [k]) + Words(s)
  {
    var line := " " + k + s;
    assert line[1..] == k + s;
    if k == "" {
      assert k + s == s;
    } else {
      WordThenBlank(k, s);
      assert (k + s)[|k|..] == s;
    }
  }

  lemma KeyHasNoBlank(isArray: bool, name: string, i: nat)
    ensures ' ' !in KeyAt(isArray, name, i)
    ensures isArray ==> KeyAt(isArray, name, i) != ""
  {
    DecDigits(i + 1);
    forall j | 0 <= j < |KeyAt(isArray, name, i)| ensures KeyAt(isArray, name, i)[j] != ' ' {
      if isArray { assert IsDigit(Dec(i + 1)[j]); } else { assert IsKeyChar(Sanitised(name)[j]); }
    }
  }

  lemma {:induction false} WordsOfTokens(ms: Members, isArray: bool, i: nat)
    ensures Words(Tokens(ms, isArray, i)) == NonEmpty(KeyList(ms, isArray, i))
    ensures Tokens(ms, isArray, i) == "" || Tokens(ms, isArray, i)[0] == ' '
  {
    if ms.More? {
      hide Words, Sanitised;
      WordsOfTokens(ms.rest, isArray, i + 1);
      var k := KeyAt(isArray, ms.key, i);
      KeyHasNoBlank(isArray, ms.key, i);
      FrontWord(k, Tokens(ms.rest, isArray, i + 1));
      assert KeyList(ms, isArray, i)[1..] == KeyList(ms.rest, isArray, i + 1);
    } else {
      assert Words("") == [];
    }
  }

  lemma {:induction false} DistinctKeysStay(ms: Members, isArray: bool, i: nat)
    requires Distinct(ms, isArray, i)
    ensures NonEmpty(KeyList(ms, isArray, i)) == KeyList(ms, isArray, i)
  {
    if ms.More? {
      DistinctKeysStay(ms.rest, isArray, i + 1);
      assert KeyList(ms, isArray, i)[1..] == KeyList(ms.rest, isArray, i + 1);
    }
  }

  /** The positions in an array are always distinct. */
  lemma {:induction false} ArrayDistinct(ms: Members, i: nat, bound: nat)
    requires bound <= i
    ensures Distinct(ms, true, i) && Dec(bound) !in KeysOf(ms, true, i)
  {
    if ms.More? {
      ArrayDistinct(ms.rest, i + 1, i + 1);
      ArrayDistinct(ms.rest, i + 1, bound);
      if Dec(bound) == Dec(i + 1) { DecInjective(bound, i + 1); }
    }
  }

  // ----- reading back a stored table -----

  function Concat(a: Members, b: Members): Members
  {
    if a.Nil? then b else More(a.key, a.value, Concat(a.rest, b))
  }

  lemma {:induction false} AppendConcat(a: Members, key: string, v: Json, b: Members)
    ensures Concat(Append(a, key, v), b) == Concat(a, More(key, v, b))
  {
    if a.More? { AppendConcat(a.rest, key, v, b); }
  }

  lemma {:induction false} ConcatNil(a: Members)
    ensures Concat(a, Nil) == a
  {
    if a.More? { ConcatNil(a.rest); }
  }

  lemma {:induction false} WithoutAbsent(a: Members, key: string)
    requires key !in NamesIn(a)
    ensures Without(a, key) == a
  {
    if a.More? { WithoutAbsent(a.rest, key); }
  }

  lemma {:induction false} AppendKeys(a: Members, key: string, v: Json)
    ensures NamesIn(Append(a, key, v)) == NamesIn(a) + {key} && Count(Append(a, key, v)) == Count(a) + 1
  {
    if a.More? { AppendKeys(a.rest, key, v); }
  }

  /** What is read for a value that is stored: itself, or the table found under the child's name. */
  function ReadValue(e: Env, v: Json, n: nat, depth: nat): Json
  {
    if v.Table? && depth > 0 then Table(v.isArray, Rebuilt(e, TableName(NewChild(v, n)), v.isArray, depth - 1)) else v
  }

  function Read(e: Env, ms: Members, isArray: bool, n: nat, depth: nat): Members
  {
    if ms.Nil? then Nil
    else More(if isArray then "" else ms.key, ReadValue(e, ms.value, n, depth),
              Read(e, ms.rest, isArray, n + Tables(ms.value), depth))
  }

  lemma BooleanText(b: bool)
    ensures Atoi(if b then "1" else "0") == if b then 1 else 0
  {
    AtoiSigned(0);
    AtoiSigned(1);
  }

  lemma HeldValue(e: Env, t: Table, name: string, v: Json, key: string, n: nat, depth: nat)
    requires Holds(e, t, name, v, key, n) && (v.Table? ==> depth > 0)
    ensures ValueIn(e, TableName(t), key, depth) == Some(ReadValue(e, v, n, depth))
    ensures NameIn(e, TableName(t), key) == if t.Array? then key else if key == name then key else name
  {
    hide Rebuilt, TableName, Sanitised, Atoi, Signed, Stored, Distinct, Tokens;
    assert Render(Value(t, key)) == TableName(t) + "_" + key;
    assert Render(TypeVar(t, key)) == "TYPE_" + (TableName(t) + "_" + key);
    assert Render(NameVar(t, key)) == "NAME_" + (TableName(t) + "_" + key);
    match v
    case Int(i) => AtoiSigned(i);
    case Bool(b) => BooleanText(b);
    case _ =>
  }

  lemma CollectOne(e: Env, t: Table, ms: Members, i: nat, n: nat, acc: Members, depth: nat)
    requires ms.More? && Stored(e, t, ms, i, n) && depth >= Depth(ms)
    requires !t.Array? ==> ms.key !in NamesIn(acc)
    ensures Collected(e, TableName(t), t.Array?, KeyList(ms, t.Array?, i), acc, depth)
         == Collected(e, TableName(t), t.Array?, KeyList(ms.rest, t.Array?, i + 1),
                      Append(acc, if t.Array? then "" else ms.key, ReadValue(e, ms.value, n, depth)), depth)
    ensures Stored(e, t, ms.rest, i + 1, n + Tables(ms.value)) && depth >= Depth(ms.rest)
  {
    hide ValueIn, NameIn, ReadValue, Holds, Sanitised, TableName, Without, Append;
    var key := KeyAt(t.Array?, ms.key, i);
    HeldValue(e, t, ms.key, ms.value, key, n, depth);
    assert KeyList(ms, t.Array?, i)[1..] == KeyList(ms.rest, t.Array?, i + 1);
    if !t.Array? { WithoutAbsent(acc, ms.key); }
  }

  lemma DistinctParts(ms: Members, isArray: bool, i: nat)
    requires ms.More? && Distinct(ms, isArray, i)
    ensures Distinct(ms.rest, isArray, i + 1)
    ensures KeyAt(isArray, ms.key, i) in KeysOf(ms, isArray, i)
    ensures KeyAt(isArray, ms.key, i) !in KeysOf(ms.rest, isArray, i + 1)
    ensures KeysOf(ms.rest, isArray, i + 1) <= KeysOf(ms, isArray, i)
  {
  }

  /** The names collected so far do not collide with the keys to come. */
  ghost predicate Apart(acc: Members, t: Table, keys: set<string>)
  {
    !t.Array? ==> forall a :: a in NamesIn(acc) ==> Sanitised(a) !in keys
  }

  lemma ApartNext(acc: Members, t: Table, ms: Members, i: nat, v: Json)
    requires ms.More? && Distinct(ms, t.Array?, i) && Apart(acc, t, KeysOf(ms, t.Array?, i))
    ensures var name := if t.Array? then "" else ms.key;
      Apart(Append(acc, name, v), t, KeysOf(ms.rest, t.Array?, i + 1))
    ensures !t.Array? ==> ms.key !in NamesIn(acc)
  {
    AppendKeys(acc, if t.Array? then "" else ms.key, v);
    hide Sanitised;
  }

  lemma ReadMore(e: Env, t: Table, ms: Members, n: nat, depth: nat)
    requires ms.More?
    ensures Read(e, ms, t.Array?, n, depth) == More(if t.Array? then "" else ms.key,
      ReadValue(e, ms.value, n, depth), Read(e, ms.rest, t.Array?, n + Tables(ms.value), depth))
  {
  }

  lemma ReadFirst(e: Env, t: Table, ms: Members, i: nat, n: nat, acc: Members, depth: nat)
    requires ms.More? && Stored(e, t, ms, i, n) && Distinct(ms, t.Array?, i) && depth >= Depth(ms)
    requires Apart(acc, t, KeysOf(ms, t.Array?, i))
    ensures Collected(e, TableName(t), t.Array?, KeyList(ms, t.Array?, i), acc, depth)
         == Concat(acc, Read(e, ms, t.Array?, n, depth))
    decreases ms, 0
  {
    hide *;
    var v := ReadValue(e, ms.value, n, depth);
    var name := if t.Array? then "" else ms.key;
    DistinctParts(ms, t.Array?, i);
    ApartNext(acc, t, ms, i, v);
    CollectOne(e, t, ms, i, n, acc, depth);
    AppendConcat(acc, name, v, Read(e, ms.rest, t.Array?, n + Tables(ms.value), depth));
    ReadMore(e, t, ms, n, depth);
    ReadStored(e, t, ms.rest, i + 1, n + Tables(ms.value), Append(acc, name, v), depth);
  }

  /** A stored table whose keys are distinct is read back member by member, in order. */
  lemma {:induction false} ReadStored(e: Env, t: Table, ms: Members, i: nat, n: nat, acc: Members, depth: nat)
    requires Stored(e, t, ms, i, n) && Distinct(ms, t.Array?, i) && depth >= Depth(ms)
    requires Apart(acc, t, KeysOf(ms, t.Array?, i))
    ensures Collected(e, TableName(t), t.Array?, KeyList(ms, t.Array?, i), acc, depth)
         == Concat(acc, Read(e, ms, t.Array?, n, depth))
    decreases ms, 1
  {
    if ms.Nil? {
      ConcatNil(acc);
    } else {
      ReadFirst(e, t, ms, i, n, acc, depth);
    }
  }

  /** The keys of t list the members, and those are stored if their keys are distinct. */
  ghost predicate InStore(e: Env, t: Table, ms: Members, n: nat)
  {
    && At(e, Keys(t)) == Some(Tokens(ms, t.Array?, 0))
    && (Distinct(ms, t.Array?, 0) ==> Stored(e, t, ms, 0, n))
  }

  lemma RebuiltFrom(e: Env, t: Table, ms: Members, n: nat, depth: nat)
    requires InStore(e, t, ms, n)
    ensures Rebuilt(e, TableName(t), t.Array?, depth)
         == Collected(e, TableName(t), t.Array?, NonEmpty(KeyList(ms, t.Array?, 0)), Nil, depth)
  {
    WordsOfTokens(ms, t.Array?, 0);
    assert Render(Keys(t)) == "KEYS_" + TableName(t);
    hide Collected, TableName, Words, Distinct, Stored;
  }

  lemma RebuiltDistinct(e: Env, t: Table, ms: Members, n: nat, depth: nat)
    requires InStore(e, t, ms, n) && Distinct(ms, t.Array?, 0) && depth >= Depth(ms)
    ensures Rebuilt(e, TableName(t), t.Array?, depth) == Read(e, ms, t.Array?, n, depth)
  {
    RebuiltFrom(e, t, ms, n, depth);
    DistinctKeysStay(ms, t.Array?, 0);
    ReadStored(e, t, ms, 0, n, Nil, depth);
    hide Rebuilt, TableName, Read;
  }

  // ----- keys that collide lose a member -----

  lemma {:induction false} WithoutCount(a: Members, key: string)
    ensures Count(Without(a, key)) <= Count(a) && NamesIn(Without(a, key)) == NamesIn(a) - {key}
    ensures key in NamesIn(a) ==> Count(Without(a, key)) < Count(a)
  {
    if a.More? { WithoutCount(a.rest, key); }
  }

  lemma InsertedCount(a: Members, key: string, v: Json)
    ensures NamesIn(Inserted(a, false, key, v)) == NamesIn(a) + {key}
    ensures Count(Inserted(a, false, key, v)) <= Count(a) + if key in NamesIn(a) then 0 else 1
  {
    WithoutCount(a, key);
    AppendKeys(Without(a, key), key, v);
  }

  function SetOf(keys: seq<string>): set<string> { set k | k in keys }

  /** An object gets at most one member for each different key. */
  lemma {:induction false} CollectedCount(e: Env, prefix: string, keys: seq<string>, acc: Members, seen: set<string>,
                                          depth: nat)
    requires Count(acc) <= |seen|
    requires forall k :: k in seen && ValueIn(e, prefix, k, depth).Some? ==> NameIn(e, prefix, k) in NamesIn(acc)
    ensures Count(Collected(e, prefix, false, keys, acc, depth)) <= |seen + SetOf(keys)|
    decreases |keys|
  {
    if keys == [] {
      assert seen + SetOf(keys) == seen;
    } else {
      hide ValueIn, NameIn, Inserted;
      var k := keys[0];
      var v := ValueIn(e, prefix, k, depth);
      var next := if v.None? then acc else Inserted(acc, false, NameIn(e, prefix, k), v.value);
      if v.Some? { InsertedCount(acc, NameIn(e, prefix, k), v.value); }
      assert k in seen ==> seen + {k} == seen;
      assert seen + SetOf(keys) == (seen + {k}) + SetOf(keys[1..]);
      CollectedCount(e, prefix, keys[1..], next, seen + {k}, depth);
    }
  }

  lemma {:induction false} KeySet(ms: Members, isArray: bool, i: nat)
    ensures SetOf(NonEmpty(KeyList(ms, isArray, i))) == KeysOf(ms, isArray, i) - {""}
  {
    if ms.More? {
      hide KeyAt;
      var k := KeyAt(isArray, ms.key, i);
      KeySet(ms.rest, isArray, i + 1);
      assert KeyList(ms, isArray, i)[1..] == KeyList(ms.rest, isArray, i + 1);
      SetOfMore(k, NonEmpty(KeyList(ms.rest, isArray, i + 1)));
    }
  }

  lemma SetOfMore(k: string, keys: seq<string>)
    ensures SetOf((if k == "" then [] else [k]) + keys) == (if k == "" then {} else {k}) + SetOf(keys)
  {
    if k == "" { assert [] + keys == keys; }
  }

  lemma {:induction false} KeyCount(ms: Members, isArray: bool, i: nat)
    ensures |KeysOf(ms, isArray, i) - {""}| <= Count(ms)
    ensures !Distinct(ms, isArray, i) ==> |KeysOf(ms, isArray, i) - {""}| < Count(ms)
  {
    if ms.More? {
      hide KeyAt;
      KeyCount(ms.rest, isArray, i + 1);
    }
  }

  lemma CollisionLoses(e: Env, t: Table, ms: Members, n: nat, depth: nat)
    requires InStore(e, t, ms, n) && !Distinct(ms, t.Array?, 0)
    ensures Count(Rebuilt(e, TableName(t), t.Array?, depth)) < Count(ms)
  {
    if t.Array? { ArrayDistinct(ms, 0, 0); }
    var keys := NonEmpty(KeyList(ms, t.Array?, 0));
    RebuiltFrom(e, t, ms, n, depth);
    KeySet(ms, t.Array?, 0);
    KeyCount(ms, t.Array?, 0);
    assert {} + SetOf(keys) == SetOf(keys);
    CollectedCount(e, TableName(t), keys, Nil, {}, depth);
    hide Rebuilt, Collected, TableName, KeyList, NonEmpty, KeysOf;
  }

  // ----- the whole tree -----

  /** In every table the members keep apart in the store. */
  predicate AllDistinct(ms: Members, isArray: bool)
  {
    Distinct(ms, isArray, 0) && ChildrenDistinct(ms)
  }

  predicate ChildrenDistinct(ms: Members)
  {
    ms.More? ==>
      && (ms.value.Table? ==> Distinct(ms.value.members, ms.value.isArray, 0) && ChildrenDistinct(ms.value.members))
      && ChildrenDistinct(ms.rest)
  }

  /** The document without the labels of array members. */
  function Stripped(ms: Members, isArray: bool): Members
  {
    match ms
    case Nil => Nil
    case More(k, v, rest) =>
      More(if isArray then "" else k,
           if v.Table? then Table(v.isArray, Stripped(v.members, v.isArray)) else v,
           Stripped(rest, isArray))
  }

  /** The same values in the same places, whatever the keys. */
  predicate SameShape(a: Members, b: Members)
  {
    if a.Nil? || b.Nil? then a == b
    else
      && a.value.Table? == b.value.Table?
      && (a.value.Table? ==> a.value.isArray == b.value.isArray && SameShape(a.value.members, b.value.members))
      && SameShape(a.rest, b.rest)
  }

  lemma {:induction false} ShapeCount(a: Members, b: Members)
    requires SameShape(a, b)
    ensures Count(a) == Count(b)
  {
    if a.More? && b.More? { ShapeCount(a.rest, b.rest); }
  }

  lemma ChildInStore(e: Env, t: Table, ms: Members, i: nat, n: nat, depth: nat)
    requires ms.More? && ms.value.Table? && Stored(e, t, ms, i, n) && depth >= Depth(ms)
    ensures InStore(e, NewChild(ms.value, n), ms.value.members, n + 1)
    ensures depth > 0 && depth - 1 >= Depth(ms.value.members)
    ensures ReadValue(e, ms.value, n, depth) ==
      Table(ms.value.isArray, Rebuilt(e, TableName(NewChild(ms.value, n)), NewChild(ms.value, n).Array?, depth - 1))
  {
    assert Holds(e, t, ms.key, ms.value, KeyAt(t.Array?, ms.key, i), n);
    hide Rebuilt, TableName, Tokens, Distinct, Stored, KeyAt, At;
  }

  lemma StrippedMore(ms: Members, isArray: bool)
    requires ms.More?
    ensures Stripped(ms, isArray) == More(if isArray then "" else ms.key,
      if ms.value.Table? then Table(ms.value.isArray, Stripped(ms.value.members, ms.value.isArray)) else ms.value,
      Stripped(ms.rest, isArray))
  {
  }

  lemma StoredParts(e: Env, t: Table, ms: Members, i: nat, n: nat, depth: nat)
    requires ms.More? && Stored(e, t, ms, i, n) && ChildrenDistinct(ms) && depth >= Depth(ms)
    ensures Stored(e, t, ms.rest, i + 1, n + Tables(ms.value)) && ChildrenDistinct(ms.rest) && depth >= Depth(ms.rest)
    ensures ms.value.Table? ==> AllDistinct(ms.value.members, ms.value.isArray)
    ensures !ms.value.Table? ==> ReadValue(e, ms.value, n, depth) == ms.value
  {
    hide Holds, Distinct, Rebuilt;
  }

  lemma {:induction false} ReadExact(e: Env, t: Table, ms: Members, i: nat, n: nat, depth: nat)
    requires Stored(e, t, ms, i, n) && ChildrenDistinct(ms) && depth >= Depth(ms)
    ensures Read(e, ms, t.Array?, n, depth) == Stripped(ms, t.Array?)
    decreases ms, 1
  {
    if ms.More? { ReadExactFirst(e, t, ms, i, n, depth); }
  }

  lemma ReadExactFirst(e: Env, t: Table, ms: Members, i: nat, n: nat, depth: nat)
    requires ms.More? && Stored(e, t, ms, i, n) && ChildrenDistinct(ms) && depth >= Depth(ms)
    ensures Read(e, ms, t.Array?, n, depth) == Stripped(ms, t.Array?)
    decreases ms, 0
  {
    hide *;
    StoredParts(e, t, ms, i, n, depth);
    ReadMore(e, t, ms, n, depth);
    StrippedMore(ms, t.Array?);
    if ms.value.Table? {
      NewChildNumber(ms.value, n);
      ChildInStore(e, t, ms, i, n, depth);
      RebuiltExact(e, NewChild(ms.value, n), ms.value.members, n + 1, depth - 1);
    }
    ReadExact(e, t, ms.rest, i + 1, n + Tables(ms.value), depth);
  }

  lemma RebuiltExact(e: Env, t: Table, ms: Members, n: nat, depth: nat)
    requires InStore(e, t, ms, n) && AllDistinct(ms, t.Array?) && depth >= Depth(ms)
    ensures Rebuilt(e, TableName(t), t.Array?, depth) == Stripped(ms, t.Array?)
    decreases ms, 2
  {
    hide Rebuilt, Distinct, Stored, Tokens, TableName;
    RebuiltDistinct(e, t, ms, n, depth);
    ReadExact(e, t, ms, 0, n, depth);
  }

  lemma {:induction false} ReadOnlyDistinct(e: Env, t: Table, ms: Members, orig: Members, i: nat, n: nat, depth: nat)
    requires Stored(e, t, ms, i, n) && SameShape(ms, orig) && depth >= Depth(ms)
    requires Read(e, ms, t.Array?, n, depth) == orig
    ensures ChildrenDistinct(ms)
    decreases ms, 0
  {
    hide Rebuilt, Holds, Distinct, TableName;
    if ms.More? {
      if ms.value.Table? {
        ChildInStore(e, t, ms, i, n, depth);
        RebuiltOnlyDistinct(e, NewChild(ms.value, n), ms.value.members, orig.value.members, n + 1, depth - 1);
      }
      ReadOnlyDistinct(e, t, ms.rest, orig.rest, i + 1, n + Tables(ms.value), depth);
    }
  }

  /** A table comes back in full only if its keys are distinct, and so below. */
  lemma RebuiltOnlyDistinct(e: Env, t: Table, ms: Members, orig: Members, n: nat, depth: nat)
    requires InStore(e, t, ms, n) && SameShape(ms, orig) && depth >= Depth(ms)
    requires Rebuilt(e, TableName(t), t.Array?, depth) == orig
    ensures AllDistinct(ms, t.Array?)
    decreases ms, 1
  {
    hide Rebuilt, Distinct, Stored, Tokens, TableName;
    ShapeCount(ms, orig);
    if Distinct(ms, t.Array?, 0) {
      RebuiltDistinct(e, t, ms, n, depth);
      ReadOnlyDistinct(e, t, ms, orig, 0, n, depth);
    } else {
      CollisionLoses(e, t, ms, n, depth);
      assert false;
    }
  }
}
