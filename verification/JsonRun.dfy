/**
 What a run of the commands for a document leaves in the store: every variable of the store
 is followed through the run by its name alone, since no two variables share a name.
 */
module JsonRun {
  import opened Wrappers
  import opened Decimal
  import opened JsonNames
  import opened JsonTree
  import opened JsonStore

  function At(e: Env, v: Var): Option<string>
  {
    if Render(v) in e then Some(e[Render(v)]) else None
  }

  function TextAt(e: Env, v: Var): string { if At(e, v).Some? then At(e, v).value else "" }

  function Num(t: Table): nat { if t.Root? then 0 else t.n }

  function NewChild(v: Json, n: nat): Table
    requires v.Table?
  {
    if v.isArray then Array(n + 1) else Object(n + 1)
  }

  /** The key of member number i (from 0) of table t. */
  function KeyAt(isArray: bool, name: string, i: nat): string
  {
    if isArray then Dec(i + 1) else Sanitised(name)
  }

  function KeysOf(ms: Members, isArray: bool, i: nat): set<string>
  {
    if ms.Nil? then {} else {KeyAt(isArray, ms.key, i)} + KeysOf(ms.rest, isArray, i + 1)
  }

  function KeyList(ms: Members, isArray: bool, i: nat): seq<string>
  {
    if ms.Nil? then [] else [KeyAt(isArray, ms.key, i)] + KeyList(ms.rest, isArray, i + 1)
  }

  /** The text that the members add to the key list of their table. */
  function Tokens(ms: Members, isArray: bool, i: nat): string
  {
    if ms.Nil? then "" else " " + KeyAt(isArray, ms.key, i) + Tokens(ms.rest, isArray, i + 1)
  }

  /** The members keep apart in the store: their keys are distinct and none is empty. */
  predicate Distinct(ms: Members, isArray: bool, i: nat)
  {
    ms.More? ==>
      && KeyAt(isArray, ms.key, i) != ""
      && KeyAt(isArray, ms.key, i) !in KeysOf(ms.rest, isArray, i + 1)
      && Distinct(ms.rest, isArray, i + 1)
  }

  // ----- one command -----

  function Put(e: Env, v: Var, x: string): Env { e[Render(v) := x] }

  function Drop(e: Env, v: Var): Env { e - {Render(v)} }

  lemma PutAt(e: Env, v: Var, x: string, w: Var)
    ensures At(Put(e, v, x), w) == if w == v then Some(x) else At(e, w)
  {
    hide Render;
    if Render(w) == Render(v) { RenderInjective(w, v); }
  }

  lemma DropAt(e: Env, v: Var, w: Var)
    ensures At(Drop(e, v), w) == if w == v then None else At(e, w)
  {
    hide Render;
    if Render(w) == Render(v) { RenderInjective(w, v); }
  }

  lemma {:induction false} BeforeDigits(p: string, d: string)
    requires d != [] && AllDigits(d) && forall i :: 0 <= i < |p| ==> !IsDigit(p[i])
    ensures BeforeDigit(p + d) == p
  {
    if p == [] {
      assert p + d == d;
    } else {
      assert (p + d)[1..] == p[1..] + d;
      BeforeDigits(p[1..], d);
    }
  }

  lemma ArrayByName(t: Table)
    ensures IsArrayName(TableName(t)) <==> t.Array?
  {
    match t
    case Root =>
      assert TableName(t)[5] == 'V';
      assert BeforeDigit(TableName(t)) != "JSON_ARRAY" by { Shorter(TableName(t)); }
    case Object(n) => DecDigits(n); BeforeDigits("JSON_TABLE", Dec(n));
      assert "JSON_TABLE"[5] != "JSON_ARRAY"[5];
    case Array(n) => DecDigits(n); BeforeDigits("JSON_ARRAY", Dec(n));
  }

  lemma {:induction false} Shorter(s: string)
    ensures |BeforeDigit(s)| <= |s|
  {
    if s != [] && !IsDigit(s[0]) { Shorter(s[1..]); }
  }

  /** The value of a variable after one value has been added to table t under `key`. */
  function AfterAdd(e: Env, typ: string, name: string, value: string, t: Table, key: string, w: Var): Option<string>
  {
    match w
    case Value(u, k) => if u == t && k == key then Some(value) else At(e, w)
    case TypeVar(u, k) => if u == t && k == key then Some(typ) else At(e, w)
    case NameVar(u, k) => if u == t && k == key && !t.Array? && key != name then Some(name) else At(e, w)
    case Keys(u) => if u == t then Some(TextAt(e, w) + " " + key) else At(e, w)
    case SeqOf(u) => if u == t && t.Array? then Some(key) else At(e, w)
    case Unset => Some(TextAt(e, w) + " " + (TableName(t) + "_" + key))
    case _ => At(e, w)
  }

  function Counted(e: Env, name: string, t: Table, key: string): Env
  {
    if t.Array? then Put(e, SeqOf(t), key)
    else if key != name then Put(e, NameVar(t, key), name)
    else e
  }

  lemma CountedIsPrepared(e: Env, name: string, t: Table, i: nat)
    requires t.Array? ==> Number(TextAt(e, SeqOf(t))) == i
    ensures var key := KeyAt(t.Array?, name, i);
      KeyFor(e, name, TableName(t)) == key && Prepared(e, name, TableName(t)) == Counted(e, name, t, key)
  {
    ArrayByName(t);
    assert Render(SeqOf(t)) == "SEQ_" + TableName(t);
    hide TableName, Sanitised, Dec, Number, IsArrayName;
  }

  lemma AddedAsPuts(e: Env, typ: string, name: string, value: string, t: Table, i: nat)
    requires t.Array? ==> Number(TextAt(e, SeqOf(t))) == i
    ensures var key := KeyAt(t.Array?, name, i);
      var e1 := Put(Put(Counted(e, name, t, key), Value(t, key), value), TypeVar(t, key), typ);
      var e2 := Put(e1, Unset, TextAt(e1, Unset) + " " + (TableName(t) + "_" + key));
      AddedGeneric(e, typ, name, value, TableName(t)) == Put(e2, Keys(t), TextAt(e2, Keys(t)) + " " + key)
  {
    CountedIsPrepared(e, name, t, i);
    hide TableName, Prepared, Counted, KeyFor, KeyAt;
  }

  function WithValue(e: Env, typ: string, name: string, value: string, t: Table, key: string): Env
  {
    Put(Put(Counted(e, name, t, key), Value(t, key), value), TypeVar(t, key), typ)
  }

  lemma WithValueAt(e: Env, typ: string, name: string, value: string, t: Table, key: string, w: Var)
    ensures At(WithValue(e, typ, name, value, t, key), w) ==
      if w == Unset || w.Keys? then At(e, w) else AfterAdd(e, typ, name, value, t, key, w)
  {
    hide At, Put, TableName;
    PutAt(e, SeqOf(t), key, w);
    PutAt(e, NameVar(t, key), name, w);
    var e0 := Counted(e, name, t, key);
    PutAt(e0, Value(t, key), value, w);
    PutAt(Put(e0, Value(t, key), value), TypeVar(t, key), typ, w);
  }

  /** `_json_add_generic` touches exactly these variables. */
  lemma AddedAt(e: Env, typ: string, name: string, value: string, t: Table, i: nat, w: Var)
    requires t.Array? ==> Number(TextAt(e, SeqOf(t))) == i
    ensures var key := KeyAt(t.Array?, name, i);
      At(AddedGeneric(e, typ, name, value, TableName(t)), w) == AfterAdd(e, typ, name, value, t, key, w)
  {
    AddedAsPuts(e, typ, name, value, t, i);
    var key := KeyAt(t.Array?, name, i);
    var e1 := WithValue(e, typ, name, value, t, key);
    hide Render, KeyAt, TableName, Put, AddedGeneric, At, Number, WithValue;
    var unset := TextAt(e1, Unset) + " " + (TableName(t) + "_" + key);
    var keys := TextAt(Put(e1, Unset, unset), Keys(t)) + " " + key;
    WithValueAt(e, typ, name, value, t, key, Unset);
    WithValueAt(e, typ, name, value, t, key, w);
    PutAt(e1, Unset, unset, w);
    PutAt(Put(e1, Unset, unset), Keys(t), keys, w);
    if w == Keys(t) {
      assert TextAt(Put(e1, Unset, unset), w) == TextAt(e, w);
    }
  }

  lemma OpenedAt(e: Env, t: Table, u: Table, n: nat, w: Var)
    requires TextAt(e, Cur) == TableName(t) && Number(TextAt(e, SeqVar)) == n
    ensures At(Opened(e, TableName(u)), w) ==
        match w
        case Unset => Some(TextAt(e, Unset) + " " + TableName(u))
        case SeqVar => Some(Dec(n + 1))
        case Cur => Some(TableName(u))
        case Up(x) => if x == u then Some(TableName(t)) else At(e, w)
        case Keys(x) => if x == u then Some("") else At(e, w)
        case SeqOf(x) => if x == u then None else At(e, w)
        case _ => At(e, w)
  {
    hide Put, Drop, At, TableName, Render, Dec, Opened, Number;
    OpenedAsPuts(e, t, u, n);
    var e1 := Put(e, SeqVar, Dec(n + 1));
    var e2 := Put(e1, Up(u), TableName(t));
    var e3 := Put(e2, Keys(u), "");
    var e4 := Drop(e3, SeqOf(u));
    var e5 := Put(e4, Cur, TableName(u));
    PutAt(e, SeqVar, Dec(n + 1), w);
    PutAt(e1, Up(u), TableName(t), w);
    PutAt(e2, Keys(u), "", w);
    DropAt(e3, SeqOf(u), w);
    PutAt(e4, Cur, TableName(u), w);
    PutAt(e5, Unset, TextAt(e5, Unset) + " " + TableName(u), w);
  }

  lemma OpenedAsPuts(e: Env, t: Table, u: Table, n: nat)
    requires TextAt(e, Cur) == TableName(t) && Number(TextAt(e, SeqVar)) == n
    ensures var e1 := Put(Put(Put(e, SeqVar, Dec(n + 1)), Up(u), TableName(t)), Keys(u), "");
      var e2 := Put(Drop(e1, SeqOf(u)), Cur, TableName(u));
      Opened(e, TableName(u)) == Put(e2, Unset, TextAt(e2, Unset) + " " + TableName(u))
  {
    assert Render(SeqVar) == "JSON_SEQ" && Render(Cur) == "JSON_CUR";
    hide TableName, Dec, Number;
  }

  lemma ClosedAt(e: Env, u: Table, w: Var)
    requires TextAt(e, Cur) == TableName(u)
    ensures At(Closed(e), w) == if w == Cur then Some(TextAt(e, Up(u))) else At(e, w)
  {
    assert Closed(e) == Put(e, Cur, TextAt(e, Up(u)));
    PutAt(e, Cur, TextAt(e, Up(u)), w);
  }

  // ----- what is in the store -----

  /** The text a value is stored as, when n tables have been made before it. */
  function Stands(v: Json, n: nat): string
  {
    if v.Table? then TableName(NewChild(v, n)) else Written(v)
  }

  ghost predicate Holds(e: Env, t: Table, name: string, v: Json, key: string, n: nat)
    decreases v
  {
    && At(e, Value(t, key)) == Some(Stands(v, n))
    && At(e, TypeVar(t, key)) == Some(TypeName(v))
    && At(e, NameVar(t, key)) == (if t.Array? || key == name then None else Some(name))
    && (v.Table? ==>
          var u := NewChild(v, n);
          && At(e, Keys(u)) == Some(Tokens(v.members, v.isArray, 0))
          && (Distinct(v.members, v.isArray, 0) ==> Stored(e, u, v.members, 0, n + 1)))
  }

  /** Each member, and below it every table whose own members are distinct. */
  ghost predicate Stored(e: Env, t: Table, ms: Members, i: nat, n: nat)
    decreases ms
  {
    ms.More? ==>
      && Holds(e, t, ms.key, ms.value, KeyAt(t.Array?, ms.key, i), n)
      && Stored(e, t, ms.rest, i + 1, n + Tables(ms.value))
  }

  /** The members of t under these keys, and the tables numbered above lo up to hi. */
  predicate Region(w: Var, t: Table, keys: set<string>, lo: nat, hi: nat)
  {
    match w
    case Value(u, k) => (u == t && k in keys) || lo < Num(u) <= hi
    case TypeVar(u, k) => (u == t && k in keys) || lo < Num(u) <= hi
    case NameVar(u, k) => (u == t && k in keys) || lo < Num(u) <= hi
    case Keys(u) => lo < Num(u) <= hi
    case _ => false
  }

  ghost predicate Agree(e: Env, f: Env, t: Table, keys: set<string>, lo: nat, hi: nat)
  {
    forall w :: Region(w, t, keys, lo, hi) ==> At(f, w) == At(e, w)
  }

  lemma AgreeOnParts(e: Env, f: Env, t: Table, ms: Members, i: nat, n: nat)
    requires ms.More? && Agree(e, f, t, KeysOf(ms, t.Array?, i), n, n + TablesIn(ms))
    ensures var m := n + Tables(ms.value);
      && Agree(e, f, t, {KeyAt(t.Array?, ms.key, i)}, n, m)
      && Agree(e, f, t, KeysOf(ms.rest, t.Array?, i + 1), m, m + TablesIn(ms.rest))
  {
    hide KeyAt, At;
  }

  lemma AgreeBelow(e: Env, f: Env, t: Table, key: string, v: Json, n: nat)
    requires v.Table? && Agree(e, f, t, {key}, n, n + Tables(v))
    ensures Agree(e, f, NewChild(v, n), KeysOf(v.members, v.isArray, 0), n + 1, n + 1 + TablesIn(v.members))
    ensures At(f, Keys(NewChild(v, n))) == At(e, Keys(NewChild(v, n)))
  {
    assert Region(Keys(NewChild(v, n)), t, {key}, n, n + Tables(v));
    hide At;
  }

  lemma AgreeOnMember(e: Env, f: Env, t: Table, key: string, n: nat, hi: nat)
    requires Agree(e, f, t, {key}, n, hi)
    ensures forall w :: w in {Value(t, key), TypeVar(t, key), NameVar(t, key)} ==> At(f, w) == At(e, w)
  {
    assert forall w :: w in {Value(t, key), TypeVar(t, key), NameVar(t, key)} ==> Region(w, t, {key}, n, hi);
    hide At;
  }

  lemma HoldsKept(e: Env, f: Env, t: Table, name: string, v: Json, key: string, n: nat)
    requires Holds(e, t, name, v, key, n) && Agree(e, f, t, {key}, n, n + Tables(v))
    ensures Holds(f, t, name, v, key, n)
    decreases v
  {
    hide Agree, At, KeysOf, Tables, TablesIn, Stored, Tokens, Distinct;
    AgreeOnMember(e, f, t, key, n, n + Tables(v));
    if v.Table? {
      AgreeBelow(e, f, t, key, v, n);
      if Distinct(v.members, v.isArray, 0) {
        StoredKept(e, f, NewChild(v, n), v.members, 0, n + 1);
      }
    }
  }

  lemma {:induction false} StoredKept(e: Env, f: Env, t: Table, ms: Members, i: nat, n: nat)
    requires Stored(e, t, ms, i, n) && Agree(e, f, t, KeysOf(ms, t.Array?, i), n, n + TablesIn(ms))
    ensures Stored(f, t, ms, i, n)
    decreases ms
  {
    hide Agree, Holds, At, KeyAt, KeysOf, Tables, TablesIn;
    if ms.More? {
      AgreeOnParts(e, f, t, ms, i, n);
      HoldsKept(e, f, t, ms.key, ms.value, KeyAt(t.Array?, ms.key, i), n);
      StoredKept(e, f, t, ms.rest, i + 1, n + Tables(ms.value));
    }
  }

  // ----- the run -----

  /** The current table is t, n tables have been made, and t has i members if it is an array. */
  ghost predicate Ready(e: Env, t: Table, n: nat, i: nat)
  {
    && At(e, Cur) == Some(TableName(t))
    && At(e, SeqVar) == Some(Dec(n))
    && Num(t) <= n
    && (t.Array? ==> Number(TextAt(e, SeqOf(t))) == i)
    && At(e, Keys(t)).Some?
  }

  lemma ReadyMeans(e: Env, t: Table, n: nat, i: nat)
    requires Ready(e, t, n, i)
    ensures Num(t) <= n && TextAt(e, Cur) == TableName(t)
  {
  }

  /** No name is on record for these keys of t nor for any table yet to be made. */
  ghost predicate Blank(e: Env, t: Table, keys: set<string>, n: nat)
  {
    forall u, k :: (u == t && k in keys) || Num(u) > n ==> At(e, NameVar(u, k)) == None
  }

  /** What a run that adds members under these keys to t and makes tables lo + 1 to hi leaves alone. */
  predicate Untouched(w: Var, t: Table, keys: set<string>, lo: nat, hi: nat)
  {
    match w
    case SeqVar => false
    case Cur => false
    case Unset => false
    case RootType => true
    case Up(u) => !(lo < Num(u) <= hi)
    case Keys(u) => u != t && !(lo < Num(u) <= hi)
    case SeqOf(u) => u != t && !(lo < Num(u) <= hi)
    case Value(u, k) => !(u == t && k in keys) && !(lo < Num(u) <= hi)
    case TypeVar(u, k) => !(u == t && k in keys) && !(lo < Num(u) <= hi)
    case NameVar(u, k) => !(u == t && k in keys) && !(lo < Num(u) <= hi)
  }

  ghost predicate Same(e: Env, f: Env, t: Table, keys: set<string>, lo: nat, hi: nat)
  {
    forall w :: Untouched(w, t, keys, lo, hi) ==> At(f, w) == At(e, w)
  }

  lemma NumberDec(n: nat)
    ensures Number(Dec(n)) == n
  {
    UndecDec(n);
  }

  lemma RunMember(e: Env, t: Table, name: string, v: Json, i: nat, n: nat)
    requires Ready(e, t, n, i) && Blank(e, t, {}, n)
    ensures var f := Run(e, CallsFor(name, v));
      var key := KeyAt(t.Array?, name, i);
      && Ready(f, t, n + Tables(v), i + 1)
      && At(f, Keys(t)) == Some(TextAt(e, Keys(t)) + " " + key)
      && Same(e, f, t, {key}, n, n + Tables(v))
      && (Blank(e, t, {key}, n) ==> Holds(f, t, name, v, key, n))
    decreases v
  {
    hide *;
    if v.Table? {
      RunTable(e, t, name, v, i, n);
    } else {
      RunScalar(e, t, name, v, i, n);
    }
  }

  /** What one call of `_json_add_generic` establishes. */
  lemma AddedReady(e: Env, typ: string, name: string, value: string, t: Table, i: nat, n: nat)
    requires Ready(e, t, n, i)
    ensures var f, key := AddedGeneric(e, typ, name, value, TableName(t)), KeyAt(t.Array?, name, i);
      Ready(f, t, n, i + 1) && At(f, Keys(t)) == Some(TextAt(e, Keys(t)) + " " + key)
  {
    if t.Array? { KeyNumber(name, i); }
    hide AddedGeneric, TableName, Dec, Number, At, KeyAt;
    AddedAt(e, typ, name, value, t, i, Cur);
    AddedAt(e, typ, name, value, t, i, SeqVar);
    AddedAt(e, typ, name, value, t, i, SeqOf(t));
    AddedAt(e, typ, name, value, t, i, Keys(t));
  }

  lemma AddedMember(e: Env, typ: string, name: string, value: string, t: Table, i: nat, n: nat)
    requires Ready(e, t, n, i)
    ensures var f, key := AddedGeneric(e, typ, name, value, TableName(t)), KeyAt(t.Array?, name, i);
      && At(f, Value(t, key)) == Some(value) && At(f, TypeVar(t, key)) == Some(typ)
      && (Blank(e, t, {key}, n) ==> At(f, NameVar(t, key)) == if t.Array? || key == name then None else Some(name))
  {
    hide AddedGeneric, TableName, Dec, Number, At, KeyAt;
    var key := KeyAt(t.Array?, name, i);
    AddedAt(e, typ, name, value, t, i, Value(t, key));
    AddedAt(e, typ, name, value, t, i, TypeVar(t, key));
    AddedAt(e, typ, name, value, t, i, NameVar(t, key));
    assert Blank(e, t, {key}, n) ==> At(e, NameVar(t, key)) == None;
  }

  lemma AddedSame(e: Env, typ: string, name: string, value: string, t: Table, i: nat, n: nat)
    requires Ready(e, t, n, i)
    ensures Same(e, AddedGeneric(e, typ, name, value, TableName(t)), t, {KeyAt(t.Array?, name, i)}, n, n)
  {
    var f, key := AddedGeneric(e, typ, name, value, TableName(t)), KeyAt(t.Array?, name, i);
    forall w | Untouched(w, t, {key}, n, n) ensures At(f, w) == At(e, w) {
      AddedAt(e, typ, name, value, t, i, w);
    }
  }

  lemma RunScalar(e: Env, t: Table, name: string, v: Json, i: nat, n: nat)
    requires !v.Table? && Ready(e, t, n, i)
    ensures var f := Run(e, CallsFor(name, v));
      var key := KeyAt(t.Array?, name, i);
      && Tables(v) == 0
      && Ready(f, t, n, i + 1)
      && At(f, Keys(t)) == Some(TextAt(e, Keys(t)) + " " + key)
      && Same(e, f, t, {key}, n, n)
      && (Blank(e, t, {key}, n) ==> Holds(f, t, name, v, key, n))
  {
    hide AddedGeneric, TableName, Dec, At, KeyAt, Run, CallsFor, TypeName, Written, Blank, Same, Ready;
    AddedReady(e, TypeName(v), name, Written(v), t, i, n);
    AddedMember(e, TypeName(v), name, Written(v), t, i, n);
    AddedSame(e, TypeName(v), name, Written(v), t, i, n);
    ScalarIsAdded(e, t, name, v, i, n);
  }

  lemma ScalarIsAdded(e: Env, t: Table, name: string, v: Json, i: nat, n: nat)
    requires !v.Table? && Ready(e, t, n, i)
    ensures Run(e, CallsFor(name, v)) == AddedGeneric(e, TypeName(v), name, Written(v), TableName(t))
  {
    hide AddedGeneric, TableName, Dec, KeyAt, TypeName, Written;
    assert CallsFor(name, v)[1..] == [];
    assert Render(Cur) == "JSON_CUR";
  }

  lemma KeyNumber(name: string, i: nat)
    ensures Number(KeyAt(true, name, i)) == i + 1 && Number("") == 0
  {
    NumberDec(i + 1);
  }

  /** The states around a table's members: e1 before the first, e2 after the last. */
  ghost predicate Around(e: Env, e1: Env, e2: Env, t: Table, name: string, v: Json, i: nat, n: nat)
    requires v.Table?
  {
    var u, key := NewChild(v, n), KeyAt(t.Array?, name, i);
    && Ready(e1, u, n + 1, 0)
    && At(e1, Up(u)) == Some(TableName(t)) && At(e1, Keys(u)) == Some("")
    && At(e1, Keys(t)) == Some(TextAt(e, Keys(t)) + " " + key)
    && (t.Array? ==> Number(TextAt(e1, SeqOf(t))) == i + 1)
    && Same(e, e1, t, {key}, n, n + 1)
    && Ready(e2, u, n + Tables(v), Count(v.members))
    && At(e2, Keys(u)) == Some(Tokens(v.members, v.isArray, 0))
    && Same(e1, e2, u, KeysOf(v.members, v.isArray, 0), n + 1, n + Tables(v))
    && (Distinct(v.members, v.isArray, 0) ==> Stored(e2, u, v.members, 0, n + 1))
  }

  lemma RunInside(e: Env, t: Table, name: string, v: Json, i: nat, n: nat)
    requires v.Table? && Ready(e, t, n, i) && Blank(e, t, {}, n)
    ensures var e1 := AddedTable(e, name, v.isArray);
      Around(e, e1, Run(e1, Calls(v.members)), t, name, v, i, n)
    decreases v, 0
  {
    hide *;
    NewChildNumber(v, n);
    OpenedReady(e, t, name, v, i, n);
    OpenedSame(e, t, name, v, i, n);
    OpenedBlank(e, t, name, v, i, n);
    RunMembers(AddedTable(e, name, v.isArray), NewChild(v, n), v.members, 0, n + 1);
    var e1 := AddedTable(e, name, v.isArray);
    AroundIs(e, e1, Run(e1, Calls(v.members)), t, name, v, i, n);
  }

  lemma AroundIs(e: Env, e1: Env, e2: Env, t: Table, name: string, v: Json, i: nat, n: nat)
    requires v.Table?
    requires var u, key, hi := NewChild(v, n), KeyAt(t.Array?, name, i), n + 1 + TablesIn(v.members);
      && Ready(e1, u, n + 1, 0)
      && At(e1, Up(u)) == Some(TableName(t)) && At(e1, Keys(u)) == Some("")
      && At(e1, Keys(t)) == Some(TextAt(e, Keys(t)) + " " + key)
      && (t.Array? ==> Number(TextAt(e1, SeqOf(t))) == i + 1)
      && Same(e, e1, t, {key}, n, n + 1)
      && Ready(e2, u, hi, 0 + Count(v.members))
      && At(e2, Keys(u)) == Some(TextAt(e1, Keys(u)) + Tokens(v.members, u.Array?, 0))
      && Same(e1, e2, u, KeysOf(v.members, u.Array?, 0), n + 1, hi)
      && (Distinct(v.members, u.Array?, 0) ==> Stored(e2, u, v.members, 0, n + 1))
    ensures Around(e, e1, e2, t, name, v, i, n)
  {
    assert "" + Tokens(v.members, v.isArray, 0) == Tokens(v.members, v.isArray, 0);
    hide Ready, Same, Stored, Distinct, KeysOf, Tokens, At, KeyAt, Number;
  }

  lemma RunTable(e: Env, t: Table, name: string, v: Json, i: nat, n: nat)
    requires v.Table? && Ready(e, t, n, i) && Blank(e, t, {}, n)
    ensures var f := Run(e, CallsFor(name, v));
      var key := KeyAt(t.Array?, name, i);
      && Ready(f, t, n + Tables(v), i + 1)
      && At(f, Keys(t)) == Some(TextAt(e, Keys(t)) + " " + key)
      && Same(e, f, t, {key}, n, n + Tables(v))
      && (Blank(e, t, {key}, n) ==> Holds(f, t, name, v, key, n))
    decreases v, 1
  {
    hide *;
    var e1, key := AddedTable(e, name, v.isArray), KeyAt(t.Array?, name, i);
    var e2 := Run(e1, Calls(v.members));
    TableRun(e, t, name, v);
    RunInside(e, t, name, v, i, n);
    ReadyMeans(e, t, n, i);
    ClosedReady(e, e1, e2, t, name, v, i, n);
    ClosedSame(e, e1, e2, t, name, v, i, n);
    if Blank(e, t, {key}, n) {
      OpenedMember(e, t, name, v, i, n);
      ClosedHolds(e, e1, e2, t, name, v, i, n);
    }
  }

  // The state e1 in which the members of a new table u of t are about to be added.

  lemma OpenedReady(e: Env, t: Table, name: string, v: Json, i: nat, n: nat)
    requires v.Table? && Ready(e, t, n, i)
    ensures var e1, u, key := AddedTable(e, name, v.isArray), NewChild(v, n), KeyAt(t.Array?, name, i);
      && Ready(e1, u, n + 1, 0)
      && At(e1, Up(u)) == Some(TableName(t)) && At(e1, Keys(u)) == Some("")
      && At(e1, Keys(t)) == Some(TextAt(e, Keys(t)) + " " + key)
      && (t.Array? ==> Number(TextAt(e1, SeqOf(t))) == i + 1)
  {
    hide AddedTable, TableName, Dec, Undec, AllDigits, Number, At, KeyAt, NewChild;
    var u := NewChild(v, n);
    NewChildNumber(v, n);
    KeyNumber(name, i);
    forall w | w in {Cur, SeqVar, SeqOf(u), Up(u), Keys(u), Keys(t), SeqOf(t)}
      ensures At(AddedTable(e, name, v.isArray), w) == AfterOpen(e, t, name, v, i, n, w)
    {
      TableOpened(e, t, name, v, i, n, w);
    }
  }

  lemma OpenedMember(e: Env, t: Table, name: string, v: Json, i: nat, n: nat)
    requires v.Table? && Ready(e, t, n, i)
    ensures var e1, u, key := AddedTable(e, name, v.isArray), NewChild(v, n), KeyAt(t.Array?, name, i);
      && At(e1, Value(t, key)) == Some(TableName(u)) && At(e1, TypeVar(t, key)) == Some(TypeName(v))
      && (Blank(e, t, {key}, n) ==> At(e1, NameVar(t, key)) == if t.Array? || key == name then None else Some(name))
  {
    var key := KeyAt(t.Array?, name, i);
    hide AddedTable, TableName, Dec, Number, At, KeyAt, NewChild;
    TableOpened(e, t, name, v, i, n, Value(t, key));
    TableOpened(e, t, name, v, i, n, TypeVar(t, key));
    TableOpened(e, t, name, v, i, n, NameVar(t, key));
    assert Blank(e, t, {key}, n) ==> At(e, NameVar(t, key)) == None;
  }

  lemma OpenedSame(e: Env, t: Table, name: string, v: Json, i: nat, n: nat)
    requires v.Table? && Ready(e, t, n, i)
    ensures Same(e, AddedTable(e, name, v.isArray), t, {KeyAt(t.Array?, name, i)}, n, n + 1)
  {
    NewChildNumber(v, n);
    var key, e1 := KeyAt(t.Array?, name, i), AddedTable(e, name, v.isArray);
    hide AddedTable, TableName, Dec, Number, At, KeyAt, NewChild;
    forall w | Untouched(w, t, {key}, n, n + 1) ensures At(e1, w) == At(e, w) {
      TableOpened(e, t, name, v, i, n, w);
    }
  }

  lemma OpenedBlank(e: Env, t: Table, name: string, v: Json, i: nat, n: nat)
    requires v.Table? && Ready(e, t, n, i) && Blank(e, t, {}, n)
    ensures forall keys: set<string> {:trigger Blank(AddedTable(e, name, v.isArray), NewChild(v, n), keys, n + 1)} ::
      Blank(AddedTable(e, name, v.isArray), NewChild(v, n), keys, n + 1)
  {
    NewChildNumber(v, n);
    var e1 := AddedTable(e, name, v.isArray);
    hide AddedTable, TableName, Dec, Number, At, KeyAt, NewChild;
    forall x, k | Num(x) > n ensures At(e1, NameVar(x, k)) == None {
      TableOpened(e, t, name, v, i, n, NameVar(x, k));
    }
  }

  // The state e2 after the members, and the return to t.

  lemma ClosedReady(e: Env, e1: Env, e2: Env, t: Table, name: string, v: Json, i: nat, n: nat)
    requires v.Table? && Num(t) <= n && Around(e, e1, e2, t, name, v, i, n)
    ensures Ready(Closed(e2), t, n + Tables(v), i + 1)
    ensures At(Closed(e2), Keys(t)) == Some(TextAt(e, Keys(t)) + " " + KeyAt(t.Array?, name, i))
  {
    hide TableName, Dec, Number, At, NewChild, Closed, Stored, Distinct, Tokens, KeyAt, KeysOf, TablesIn, Calls, Run;
    var u := NewChild(v, n);
    NewChildNumber(v, n);
    forall w | w in {Up(u), Keys(t), SeqOf(t)} ensures At(e2, w) == At(e1, w) {
      assert Untouched(w, u, KeysOf(v.members, v.isArray, 0), n + 1, n + Tables(v));
    }
    hide Same, Tables;
    forall w | w in {Cur, SeqVar, Keys(t), SeqOf(t)}
      ensures At(Closed(e2), w) == if w == Cur then Some(TextAt(e2, Up(u))) else At(e2, w)
    {
      ClosedAt(e2, u, w);
    }
  }

  lemma ClosedSame(e: Env, e1: Env, e2: Env, t: Table, name: string, v: Json, i: nat, n: nat)
    requires v.Table? && Num(t) <= n && Around(e, e1, e2, t, name, v, i, n)
    ensures Same(e, Closed(e2), t, {KeyAt(t.Array?, name, i)}, n, n + Tables(v))
  {
    var u, hi, key := NewChild(v, n), n + Tables(v), KeyAt(t.Array?, name, i);
    NewChildNumber(v, n);
    assert n + 1 <= hi;
    forall w | Untouched(w, t, {key}, n, hi) ensures At(Closed(e2), w) == At(e, w) {
      assert Untouched(w, u, KeysOf(v.members, v.isArray, 0), n + 1, hi);
      assert Untouched(w, t, {key}, n, n + 1);
      ClosedAt(e2, u, w);
      hide At;
    }
  }

  lemma ClosedHolds(e: Env, e1: Env, e2: Env, t: Table, name: string, v: Json, i: nat, n: nat)
    requires v.Table? && Num(t) <= n && Around(e, e1, e2, t, name, v, i, n)
    requires var u, key := NewChild(v, n), KeyAt(t.Array?, name, i);
      && At(e1, Value(t, key)) == Some(TableName(u)) && At(e1, TypeVar(t, key)) == Some(TypeName(v))
      && At(e1, NameVar(t, key)) == (if t.Array? || key == name then None else Some(name))
    ensures Holds(Closed(e2), t, name, v, KeyAt(t.Array?, name, i), n)
  {
    var u, key := NewChild(v, n), KeyAt(t.Array?, name, i);
    NewChildNumber(v, n);
    forall w | w in {Value(t, key), TypeVar(t, key), NameVar(t, key)} ensures At(e2, w) == At(e1, w) {
      assert Untouched(w, u, KeysOf(v.members, v.isArray, 0), n + 1, n + Tables(v));
    }
    assert Holds(e2, t, name, v, key, n);
    assert TextAt(e2, Cur) == TableName(u);
    hide Holds, At, Closed, Same, Around;
    assert Agree(e2, Closed(e2), t, {key}, n, n + Tables(v)) by {
      forall w | Region(w, t, {key}, n, n + Tables(v)) ensures At(Closed(e2), w) == At(e2, w) {
        ClosedAt(e2, u, w);
      }
    }
    HoldsKept(e2, Closed(e2), t, name, v, key, n);
  }

  lemma TableRun(e: Env, t: Table, name: string, v: Json)
    requires v.Table?
    ensures Run(e, CallsFor(name, v)) == Closed(Run(AddedTable(e, name, v.isArray), Calls(v.members)))
  {
    var open, inner := [Open(name, v.isArray)], Calls(v.members);
    RunSplit(e, open + inner, [Close]);
    RunSplit(e, open, inner);
    assert open[1..] == [];
    hide AddedTable, Closed, Calls;
    var e2 := Run(e, open + inner);
    assert Run(e2, [Close]) == Run(Step(e2, Close), []);
  }

  /** Each variable once a new table has been opened in t, its own call and its parent's. */
  function AfterOpen(e: Env, t: Table, name: string, v: Json, i: nat, n: nat, w: Var): Option<string>
    requires v.Table?
  {
    var u, key := NewChild(v, n), KeyAt(t.Array?, name, i);
    match w
    case SeqVar => Some(Dec(n + 1))
    case Cur => Some(TableName(u))
    case Up(x) => if x == u then Some(TableName(t)) else At(e, w)
    case Keys(x) => if x == u then Some("") else AfterAdd(e, TypeName(v), name, TableName(u), t, key, w)
    case SeqOf(x) => if x == u then None else AfterAdd(e, TypeName(v), name, TableName(u), t, key, w)
    case _ => AfterAdd(e, TypeName(v), name, TableName(u), t, key, w)
  }

  lemma StartThenAdd(e: Env, t: Table, name: string, v: Json, i: nat, n: nat, w: Var)
    requires v.Table? && Ready(e, t, n, i) && w != Unset
    ensures var u := NewChild(v, n);
      AfterAdd(Opened(e, TableName(u)), TypeName(v), name, TableName(u), t, KeyAt(t.Array?, name, i), w)
      == AfterOpen(e, t, name, v, i, n, w)
  {
    NumberDec(n);
    NewChildNumber(v, n);
    hide TableName, Dec, At, Opened, KeyAt, Number, NewChild, TypeName;
    OpenedAt(e, t, NewChild(v, n), n, w);
    if w == Keys(t) {
      assert At(Opened(e, TableName(NewChild(v, n))), Keys(t)) == At(e, Keys(t));
    }
  }

  lemma TableOpened(e: Env, t: Table, name: string, v: Json, i: nat, n: nat, w: Var)
    requires v.Table? && Ready(e, t, n, i)
    ensures w != Unset ==> At(AddedTable(e, name, v.isArray), w) == AfterOpen(e, t, name, v, i, n, w)
  {
    NumberDec(n);
    NewChildNumber(v, n);
    AddedTableIs(e, name, v, n);
    var u := NewChild(v, n);
    hide AddedTable, TableName, Dec, At, Opened, AddedGeneric, KeyAt, Number, NewChild, TypeName, AfterAdd, AfterOpen;
    if w != Unset {
      OpenedAt(e, t, u, n, SeqOf(t));
      StartThenAdd(e, t, name, v, i, n, w);
      AddedAt(Opened(e, TableName(u)), TypeName(v), name, TableName(u), t, i, w);
    }
  }

  lemma NewChildNumber(v: Json, n: nat)
    requires v.Table?
    ensures Num(NewChild(v, n)) == n + 1 && !NewChild(v, n).Root? && NewChild(v, n).Array? == v.isArray
  {
  }

  lemma AddedTableIs(e: Env, name: string, v: Json, n: nat)
    requires v.Table? && At(e, SeqVar) == Some(Dec(n))
    ensures var u := NewChild(v, n);
      AddedTable(e, name, v.isArray) ==
      AddedGeneric(Opened(e, TableName(u)), TypeName(v), name, TableName(u), TextAt(e, Cur))
  {
    NumberDec(n);
    assert Render(SeqVar) == "JSON_SEQ";
    assert NewTable(e, v.isArray) == TableName(NewChild(v, n));
    assert Text(e, Render(Cur)) == TextAt(e, Cur) && Render(Cur) == "JSON_CUR";
    hide Opened, AddedGeneric, TableName, NewTable, Text, TextAt, Render, Dec, Number, At;
  }

  // The first member, then the rest.

  lemma SameBoth(e: Env, e1: Env, f: Env, t: Table, ms: Members, i: nat, n: nat)
    requires ms.More? && Num(t) <= n
    requires Same(e, e1, t, {KeyAt(t.Array?, ms.key, i)}, n, n + Tables(ms.value))
    requires Same(e1, f, t, KeysOf(ms.rest, t.Array?, i + 1), n + Tables(ms.value), n + TablesIn(ms))
    ensures Same(e, f, t, KeysOf(ms, t.Array?, i), n, n + TablesIn(ms))
  {
    var key, m, hi := KeyAt(t.Array?, ms.key, i), n + Tables(ms.value), n + TablesIn(ms);
    forall w | Untouched(w, t, KeysOf(ms, t.Array?, i), n, hi) ensures At(f, w) == At(e, w) {
      assert Untouched(w, t, {key}, n, m) && Untouched(w, t, KeysOf(ms.rest, t.Array?, i + 1), m, hi);
    }
  }

  lemma BlankAfter(e: Env, e1: Env, t: Table, key: string, keys: set<string>, n: nat, m: nat)
    requires Num(t) <= n <= m && Same(e, e1, t, {key}, n, m) && Blank(e, t, keys, n) && key !in keys
    ensures Blank(e1, t, keys, m)
  {
    forall u, k | (u == t && k in keys) || Num(u) > m ensures At(e1, NameVar(u, k)) == None {
      assert Untouched(NameVar(u, k), t, {key}, n, m);
    }
  }

  lemma BlankLess(e: Env, t: Table, keys: set<string>, some: set<string>, n: nat)
    requires Blank(e, t, keys, n) && some <= keys
    ensures Blank(e, t, some, n)
  {
  }

  lemma HeadKept(e1: Env, f: Env, t: Table, ms: Members, i: nat, n: nat)
    requires ms.More? && Num(t) <= n
    requires KeyAt(t.Array?, ms.key, i) !in KeysOf(ms.rest, t.Array?, i + 1)
    requires Holds(e1, t, ms.key, ms.value, KeyAt(t.Array?, ms.key, i), n)
    requires Same(e1, f, t, KeysOf(ms.rest, t.Array?, i + 1), n + Tables(ms.value), n + TablesIn(ms))
    ensures Holds(f, t, ms.key, ms.value, KeyAt(t.Array?, ms.key, i), n)
  {
    hide Holds, At, KeyAt, KeysOf, Tables, TablesIn, TableName;
    var key, m, hi := KeyAt(t.Array?, ms.key, i), n + Tables(ms.value), n + TablesIn(ms);
    assert Agree(e1, f, t, {key}, n, m) by {
      forall w | Region(w, t, {key}, n, m) ensures At(f, w) == At(e1, w) {
        assert Untouched(w, t, KeysOf(ms.rest, t.Array?, i + 1), m, hi);
      }
    }
    HoldsKept(e1, f, t, ms.key, ms.value, key, n);
  }

  lemma FirstOf(e: Env, t: Table, ms: Members, i: nat, n: nat)
    requires ms.More?
    ensures var key, rest := KeyAt(t.Array?, ms.key, i), KeysOf(ms.rest, t.Array?, i + 1);
      && KeysOf(ms, t.Array?, i) == {key} + rest
      && TablesIn(ms) == Tables(ms.value) + TablesIn(ms.rest)
      && Count(ms) == 1 + Count(ms.rest)
      && Run(e, Calls(ms)) == Run(Run(e, CallsFor(ms.key, ms.value)), Calls(ms.rest))
      && TextAt(e, Keys(t)) + " " + key + Tokens(ms.rest, t.Array?, i + 1)
      == TextAt(e, Keys(t)) + Tokens(ms, t.Array?, i)
      && (Distinct(ms, t.Array?, i) ==> key !in rest && Distinct(ms.rest, t.Array?, i + 1))
  {
    hide CallsFor, Run, KeyAt, TextAt;
    RunSplit(e, CallsFor(ms.key, ms.value), Calls(ms.rest));
  }

  lemma StoredIs(f: Env, t: Table, ms: Members, i: nat, n: nat)
    requires ms.More? && Holds(f, t, ms.key, ms.value, KeyAt(t.Array?, ms.key, i), n)
    requires Stored(f, t, ms.rest, i + 1, n + Tables(ms.value))
    ensures Stored(f, t, ms, i, n)
  {
    hide Holds, KeyAt, Tables;
  }

  lemma RunFirst(e: Env, t: Table, ms: Members, i: nat, n: nat)
    requires ms.More? && Ready(e, t, n, i) && Blank(e, t, {}, n)
    ensures var f := Run(e, Calls(ms));
      && Ready(f, t, n + TablesIn(ms), i + Count(ms))
      && At(f, Keys(t)) == Some(TextAt(e, Keys(t)) + Tokens(ms, t.Array?, i))
      && Same(e, f, t, KeysOf(ms, t.Array?, i), n, n + TablesIn(ms))
      && (Distinct(ms, t.Array?, i) && Blank(e, t, KeysOf(ms, t.Array?, i), n) ==> Stored(f, t, ms, i, n))
    decreases ms, 0
  {
    hide *;
    var key, m, rest := KeyAt(t.Array?, ms.key, i), n + Tables(ms.value), KeysOf(ms.rest, t.Array?, i + 1);
    var e1 := Run(e, CallsFor(ms.key, ms.value));
    var f := Run(e1, Calls(ms.rest));
    FirstOf(e, t, ms, i, n);
    ReadyMeans(e, t, n, i);
    RunMember(e, t, ms.key, ms.value, i, n);
    BlankAfter(e, e1, t, key, {}, n, m);
    RunMembers(e1, t, ms.rest, i + 1, m);
    KeysText(e1, t, TextAt(e, Keys(t)) + " " + key);
    SameBoth(e, e1, f, t, ms, i, n);
    if Distinct(ms, t.Array?, i) && Blank(e, t, {key} + rest, n) {
      BlankLess(e, t, {key} + rest, {key}, n);
      BlankLess(e, t, {key} + rest, rest, n);
      BlankAfter(e, e1, t, key, rest, n, m);
      HeadKept(e1, f, t, ms, i, n);
      StoredIs(f, t, ms, i, n);
    }
  }

  lemma KeysText(e: Env, t: Table, text: string)
    requires At(e, Keys(t)) == Some(text)
    ensures TextAt(e, Keys(t)) == text
  {
  }

  /** The members of a table, one after the other. */
  lemma {:induction false} RunMembers(e: Env, t: Table, ms: Members, i: nat, n: nat)
    requires Ready(e, t, n, i) && Blank(e, t, {}, n)
    ensures var f := Run(e, Calls(ms));
      && Ready(f, t, n + TablesIn(ms), i + Count(ms))
      && At(f, Keys(t)) == Some(TextAt(e, Keys(t)) + Tokens(ms, t.Array?, i))
      && Same(e, f, t, KeysOf(ms, t.Array?, i), n, n + TablesIn(ms))
      && (Distinct(ms, t.Array?, i) && Blank(e, t, KeysOf(ms, t.Array?, i), n) ==> Stored(f, t, ms, i, n))
    decreases ms, 1
  {
    hide *;
    if ms.More? {
      RunFirst(e, t, ms, i, n);
    } else {
      NothingToRun(e, t, ms, i, n);
      NothingChanged(e, t, i, n);
    }
  }

  lemma NothingToRun(e: Env, t: Table, ms: Members, i: nat, n: nat)
    requires ms.Nil?
    ensures Run(e, Calls(ms)) == e && TablesIn(ms) == 0 && Count(ms) == 0
    ensures Tokens(ms, t.Array?, i) == "" && KeysOf(ms, t.Array?, i) == {} && Stored(e, t, ms, i, n)
  {
  }

  lemma NothingChanged(e: Env, t: Table, i: nat, n: nat)
    requires Ready(e, t, n, i)
    ensures At(e, Keys(t)) == Some(TextAt(e, Keys(t)) + "") && Same(e, e, t, {}, n, n)
  {
    hide Untouched, TableName, Number;
    assert TextAt(e, Keys(t)) + "" == TextAt(e, Keys(t));
  }
}
