/**
 A shell that handles one document after another: json_init clears what earlier documents
 left, so every document makes the round trip on its own terms.
 */
module JsonSession {
  import opened Wrappers
  import opened Decimal
  import opened JsonNames
  import opened JsonTree
  import opened JsonStore
  import opened JsonRun
  import opened JsonRebuild
  import opened JsonRoundTrip

  /** Every name on record belongs to a variable that the next json_init will clear. */
  ghost predicate Tidy(e: Env)
  {
    forall t, k :: At(e, NameVar(t, k)).Some? ==> TableName(t) + "_" + k in Words(TextAt(e, Unset))
  }

  // ----- json_init -----

  lemma {:induction false} UnsetAllRemoves(e: Env, tokens: seq<string>)
    ensures UnsetAll(e, tokens).Keys <= e.Keys
    ensures forall token :: token in tokens ==> "NAME_" + token !in UnsetAll(e, tokens)
    decreases |tokens|
  {
    if tokens != [] { UnsetAllRemoves(Cleared(e, tokens[0]), tokens[1..]); }
  }

  function Cleaned(e: Env): Env
  {
    UnsetAll(e, Words(Text(e, "JSON_UNSET")) + ["JSON_VAR"]) - {"JSON_SEQ", "JSON_CUR", "JSON_UNSET"}
  }

  lemma CleanedNames(e: Env, t: Table, k: string)
    requires Tidy(e)
    ensures At(Cleaned(e), NameVar(t, k)) == None
  {
    var token, tokens := TableName(t) + "_" + k, Words(Text(e, "JSON_UNSET")) + ["JSON_VAR"];
    assert Render(NameVar(t, k)) == "NAME_" + token && Render(Unset) == "JSON_UNSET";
    hide Words, TableName, UnsetAll;
    UnsetAllRemoves(e, tokens);
    if "NAME_" + token in e {
      assert At(e, NameVar(t, k)).Some?;
      assert token in tokens;
    }
  }

  lemma InitAt(e: Env, w: Var)
    ensures At(Initialised(e), w) ==
      match w
      case SeqVar => Some("0")
      case Cur => Some("JSON_VAR")
      case Keys(t) => if t.Root? then Some("") else At(Cleaned(e), w)
      case RootType => Some("")
      case _ => At(Cleaned(e), w)
  {
    assert Render(SeqVar) == "JSON_SEQ" && Render(Cur) == "JSON_CUR" && Render(Keys(Root)) == "KEYS_JSON_VAR"
        && Render(RootType) == "TYPE_JSON_VAR";
    var e1 := Put(Cleaned(e), SeqVar, "0");
    var e2 := Put(e1, Cur, "JSON_VAR");
    var e3 := Put(e2, Keys(Root), "");
    assert Initialised(e) == Put(e3, RootType, "");
    hide At, Put, Cleaned, Render, Initialised;
    PutAt(Cleaned(e), SeqVar, "0", w);
    PutAt(e1, Cur, "JSON_VAR", w);
    PutAt(e2, Keys(Root), "", w);
    PutAt(e3, RootType, "", w);
  }

  /** After json_init no name is left over, and the store is ready for a document. */
  lemma InitReady(e: Env)
    requires Tidy(e)
    ensures var f := Initialised(e);
      Ready(f, Root, 0, 0) && TextAt(f, Keys(Root)) == "" && (forall keys :: Blank(f, Root, keys, 0)) && Tidy(f)
  {
    hide At, Words, Initialised, Cleaned;
    assert TableName(Root) == "JSON_VAR" && Dec(0) == "0";
    InitAt(e, SeqVar);
    InitAt(e, Cur);
    InitAt(e, Keys(Root));
    forall t, k ensures At(Initialised(e), NameVar(t, k)) == None {
      InitAt(e, NameVar(t, k));
      CleanedNames(e, t, k);
    }
  }

  // ----- names stay on record while a document is built -----

  lemma TableNameHasNoBlank(t: Table)
    ensures ' ' !in TableName(t)
  {
    match t
    case Root =>
    case Object(n) => DecDigits(n);
    case Array(n) => DecDigits(n);
  }

  /** A step that records at most the name of (t, key), and adds that variable to the list. */
  lemma StillTidy(e: Env, f: Env, t: Table, key: string, isArray: bool, name: string, i: nat)
    requires Tidy(e) && key == KeyAt(isArray, name, i)
    requires TextAt(f, Unset) == TextAt(e, Unset) + " " + (TableName(t) + "_" + key)
    requires forall u, k :: At(f, NameVar(u, k)).Some? ==> At(e, NameVar(u, k)).Some? || (u == t && k == key)
    ensures Tidy(f)
  {
    hide At, KeyAt, TableName, Words;
    TableNameHasNoBlank(t);
    KeyHasNoBlank(isArray, name, i);
    WordsAppended(TextAt(e, Unset), TableName(t) + "_" + key);
  }

  lemma AddedTidy(e: Env, typ: string, name: string, value: string, t: Table, i: nat)
    requires Tidy(e) && (t.Array? ==> Number(TextAt(e, SeqOf(t))) == i)
    ensures Tidy(AddedGeneric(e, typ, name, value, TableName(t)))
  {
    hide At, KeyAt, TableName, Number, AddedGeneric, Tidy;
    var f, key := AddedGeneric(e, typ, name, value, TableName(t)), KeyAt(t.Array?, name, i);
    AddedAt(e, typ, name, value, t, i, Unset);
    forall u, k | At(f, NameVar(u, k)).Some? ensures At(e, NameVar(u, k)).Some? || (u == t && k == key) {
      AddedAt(e, typ, name, value, t, i, NameVar(u, k));
    }
    StillTidy(e, f, t, key, t.Array?, name, i);
  }

  lemma OpenedTidy(e: Env, t: Table, u: Table, n: nat)
    requires Tidy(e) && TextAt(e, Cur) == TableName(t) && Number(TextAt(e, SeqVar)) == n
    ensures Tidy(Opened(e, TableName(u)))
  {
    hide At, TableName, Number, Opened, Words;
    OpenedAt(e, t, u, n, Unset);
    TableNameHasNoBlank(u);
    WordsAppended(TextAt(e, Unset), TableName(u));
    forall x, k ensures At(Opened(e, TableName(u)), NameVar(x, k)) == At(e, NameVar(x, k)) {
      OpenedAt(e, t, u, n, NameVar(x, k));
    }
  }

  lemma ClosedTidy(e: Env, u: Table)
    requires Tidy(e) && TextAt(e, Cur) == TableName(u)
    ensures Tidy(Closed(e))
  {
    hide At, Words, TableName, Closed;
    ClosedAt(e, u, Unset);
    forall x, k ensures At(Closed(e), NameVar(x, k)) == At(e, NameVar(x, k)) {
      ClosedAt(e, u, NameVar(x, k));
    }
  }

  lemma AddedTableTidy(e: Env, t: Table, name: string, v: Json, i: nat, n: nat)
    requires v.Table? && Tidy(e) && Ready(e, t, n, i)
    ensures Tidy(AddedTable(e, name, v.isArray))
  {
    var u := NewChild(v, n);
    NumberDec(n);
    NewChildNumber(v, n);
    AddedTableIs(e, name, v, n);
    OpenedAt(e, t, u, n, SeqOf(t));
    hide At, TableName, Number, Dec, Opened, AddedGeneric, AddedTable, Tidy, NewChild;
    OpenedTidy(e, t, u, n);
    AddedTidy(Opened(e, TableName(u)), TypeName(v), name, TableName(u), t, i);
  }

  lemma MemberTidy(e: Env, t: Table, name: string, v: Json, i: nat, n: nat)
    requires Tidy(e) && Ready(e, t, n, i) && Blank(e, t, {}, n)
    ensures Tidy(Run(e, CallsFor(name, v)))
    decreases v
  {
    hide *;
    if v.Table? {
      var e1, u := AddedTable(e, name, v.isArray), NewChild(v, n);
      TableRun(e, t, name, v);
      AddedTableTidy(e, t, name, v, i, n);
      OpenedReady(e, t, name, v, i, n);
      OpenedBlank(e, t, name, v, i, n);
      MembersTidy(e1, u, v.members, 0, n + 1);
      RunMembers(e1, u, v.members, 0, n + 1);
      ReadyMeans(Run(e1, Calls(v.members)), u, n + 1 + TablesIn(v.members), 0 + Count(v.members));
      ClosedTidy(Run(e1, Calls(v.members)), u);
    } else {
      ScalarRun(e, t, name, v, i, n);
      AddedTidy(e, TypeName(v), name, Written(v), t, i);
    }
  }

  lemma ScalarRun(e: Env, t: Table, name: string, v: Json, i: nat, n: nat)
    requires !v.Table? && Ready(e, t, n, i)
    ensures Run(e, CallsFor(name, v)) == AddedGeneric(e, TypeName(v), name, Written(v), TableName(t))
    ensures t.Array? ==> Number(TextAt(e, SeqOf(t))) == i
  {
    assert CallsFor(name, v)[1..] == [];
    assert Render(Cur) == "JSON_CUR";
    hide AddedGeneric, TypeName, Written, TableName, Number;
  }

  lemma FirstTidy(e: Env, t: Table, ms: Members, i: nat, n: nat)
    requires ms.More? && Tidy(e) && Ready(e, t, n, i) && Blank(e, t, {}, n)
    ensures Tidy(Run(e, Calls(ms)))
    decreases ms, 0
  {
    hide *;
    var e1 := Run(e, CallsFor(ms.key, ms.value));
    FirstOf(e, t, ms, i, n);
    ReadyMeans(e, t, n, i);
    MemberTidy(e, t, ms.key, ms.value, i, n);
    RunMember(e, t, ms.key, ms.value, i, n);
    BlankAfter(e, e1, t, KeyAt(t.Array?, ms.key, i), {}, n, n + Tables(ms.value));
    MembersTidy(e1, t, ms.rest, i + 1, n + Tables(ms.value));
  }

  lemma {:induction false} MembersTidy(e: Env, t: Table, ms: Members, i: nat, n: nat)
    requires Tidy(e) && Ready(e, t, n, i) && Blank(e, t, {}, n)
    ensures Tidy(Run(e, Calls(ms)))
    decreases ms, 1
  {
    if ms.More? { FirstTidy(e, t, ms, i, n); }
  }

  // ----- documents one after another -----

  /** The store after building `docs` in a shell whose store is e, each with its own json_init. */
  function Session(e: Env, docs: seq<Members>): Env
    decreases |docs|
  {
    if docs == [] then e else Session(Run(Initialised(e), Calls(docs[0])), docs[1..])
  }

  lemma {:induction false} SessionTidy(e: Env, docs: seq<Members>)
    requires Tidy(e)
    ensures Tidy(Session(e, docs))
    decreases |docs|
  {
    hide Tidy, Ready, Blank, Initialised, Run, Calls;
    if docs != [] {
      InitReady(e);
      assert Blank(Initialised(e), Root, {}, 0);
      MembersTidy(Initialised(e), Root, docs[0], 0, 0);
      SessionTidy(Run(Initialised(e), Calls(docs[0])), docs[1..]);
    }
  }

  /** A document that has just been built is in the store. */
  lemma Built(e: Env, ms: Members)
    requires Tidy(e)
    ensures InStore(Run(Initialised(e), Calls(ms)), Root, ms, 0)
  {
    hide *;
    InitReady(e);
    var f := Initialised(e);
    assert Blank(f, Root, {}, 0) && Blank(f, Root, KeysOf(ms, Root.Array?, 0), 0);
    RunMembers(f, Root, ms, 0, 0);
    BuiltIs(f, Run(f, Calls(ms)), ms);
  }

  lemma BuiltIs(e: Env, f: Env, ms: Members)
    requires TextAt(e, Keys(Root)) == ""
    requires At(f, Keys(Root)) == Some(TextAt(e, Keys(Root)) + Tokens(ms, Root.Array?, 0))
    requires Distinct(ms, Root.Array?, 0) ==> Stored(f, Root, ms, 0, 0)
    ensures InStore(f, Root, ms, 0)
  {
    assert "" + Tokens(ms, false, 0) == Tokens(ms, false, 0);
  }

  // ----- the theorems -----

  /** The members of an array have no key of their own. */
  predicate Plain(ms: Members, isArray: bool)
  {
    ms.More? ==>
      && (isArray ==> ms.key == "")
      && (ms.value.Table? ==> Plain(ms.value.members, ms.value.isArray))
      && Plain(ms.rest, isArray)
  }

  lemma {:induction false} PlainStripped(ms: Members, isArray: bool)
    requires Plain(ms, isArray)
    ensures Stripped(ms, isArray) == ms && SameShape(ms, ms)
  {
    if ms.More? {
      if ms.value.Table? { PlainStripped(ms.value.members, ms.value.isArray); }
      PlainStripped(ms.rest, isArray);
    }
  }

  /**
   A document that a script builds call by call, with any keys, is what `jshn` then reads if
   and only if in every object the sanitised keys are distinct and not empty. Whatever
   documents the shell has handled before makes no difference.
   */
  lemma ScriptRoundTrip(earlier: seq<Members>, ms: Members, depth: nat)
    requires Plain(ms, false) && depth >= Depth(ms)
    ensures var f := Run(Initialised(Session(map[], earlier)), Calls(ms));
      Rebuilt(f, "JSON_VAR", false, depth) == ms <==> AllDistinct(ms, false)
  {
    assert Tidy(map[]);
    hide Rebuilt, Session, Initialised, Run, Calls, AllDistinct, Tidy, InStore, Stripped;
    SessionTidy(map[], earlier);
    Built(Session(map[], earlier), ms);
    PlainStripped(ms, false);
    var f := Run(Initialised(Session(map[], earlier)), Calls(ms));
    assert TableName(Root) == "JSON_VAR";
    if AllDistinct(ms, false) { RebuiltExact(f, Root, ms, 0, depth); }
    if Rebuilt(f, "JSON_VAR", false, depth) == ms { RebuiltOnlyDistinct(f, Root, ms, ms, 0, depth); }
  }

  /** Every key of every object is a non-empty string of letters, digits and underscores. */
  predicate Clean(ms: Members, isArray: bool)
  {
    ms.More? ==>
      && (!isArray ==> ms.key != "" && forall j :: 0 <= j < |ms.key| ==> IsKeyChar(ms.key[j]))
      && (ms.value.Table? ==> Clean(ms.value.members, ms.value.isArray))
      && Clean(ms.rest, isArray)
  }

  /** No object has two members of the same name, as in any parsed document. */
  predicate NoTwins(ms: Members, isArray: bool)
  {
    ms.More? ==>
      && (!isArray ==> ms.key !in NamesIn(ms.rest))
      && (ms.value.Table? ==> NoTwins(ms.value.members, ms.value.isArray))
      && NoTwins(ms.rest, isArray)
  }

  lemma {:induction false} LabelledShape(ms: Members, isArray: bool, j: nat)
    ensures SameShape(Labelled(ms, isArray, j), ms) && Depth(Labelled(ms, isArray, j)) == Depth(ms)
  {
    hide Sanitised, Dec;
    if ms.More? {
      if ms.value.Table? { LabelledShape(ms.value.members, ms.value.isArray, 0); }
      LabelledShape(ms.rest, isArray, j + 1);
    }
  }

  lemma {:induction false} CleanKeysOf(ms: Members, j: nat, i: nat)
    requires Clean(ms, false)
    ensures KeysOf(Labelled(ms, false, j), false, i) == NamesIn(ms)
  {
    if ms.More? { CleanKeysOf(ms.rest, j + 1, i + 1); }
  }

  lemma {:induction false} CleanDistinct(ms: Members, isArray: bool, j: nat, i: nat)
    requires Clean(ms, isArray) && NoTwins(ms, isArray)
    ensures Distinct(Labelled(ms, isArray, j), isArray, i)
  {
    if isArray {
      ArrayDistinct(Labelled(ms, true, j), i, i);
    } else if ms.More? {
      CleanKeysOf(ms.rest, j + 1, i + 1);
      CleanDistinct(ms.rest, false, j + 1, i + 1);
    }
  }

  lemma {:induction false} CleanIsEnough(ms: Members, isArray: bool, j: nat)
    requires Plain(ms, isArray) && Clean(ms, isArray) && NoTwins(ms, isArray)
    ensures Stripped(Labelled(ms, isArray, j), isArray) == ms && ChildrenDistinct(Labelled(ms, isArray, j))
  {
    hide Distinct, Dec;
    if ms.More? {
      if ms.value.Table? {
        CleanIsEnough(ms.value.members, ms.value.isArray, 0);
        CleanDistinct(ms.value.members, ms.value.isArray, 0, 0);
      }
      CleanIsEnough(ms.rest, isArray, j + 1);
    }
  }

  lemma {:induction false} CleanIsNeeded(ms: Members, isArray: bool, j: nat, i: nat)
    requires Stripped(Labelled(ms, isArray, j), isArray) == ms
    requires Distinct(Labelled(ms, isArray, j), isArray, i) && ChildrenDistinct(Labelled(ms, isArray, j))
    ensures Clean(ms, isArray)
    decreases ms
  {
    hide Dec;
    if ms.More? {
      if ms.value.Table? { CleanIsNeeded(ms.value.members, ms.value.isArray, 0, 0); }
      CleanIsNeeded(ms.rest, isArray, j + 1, i + 1);
    }
  }

  /**
   A parsed document, turned into commands by `jshn`, run by the shell and read back by
   `jshn`, is the same document if and only if every key of every object is a non-empty
   string over [A-Za-z0-9_].
   */
  lemma ParseRoundTrip(earlier: seq<Members>, ms: Members, depth: nat)
    requires Plain(ms, false) && NoTwins(ms, false) && depth >= Depth(ms)
    ensures var f := Run(Initialised(Session(map[], earlier)), Calls(Labelled(ms, false, 0)));
      Rebuilt(f, "JSON_VAR", false, depth) == ms <==> Clean(ms, false)
  {
    assert Tidy(map[]);
    hide Rebuilt, Session, Initialised, Run, Calls, Tidy, InStore, Stripped, Labelled, Distinct, ChildrenDistinct;
    var sent := Labelled(ms, false, 0);
    SessionTidy(map[], earlier);
    Built(Session(map[], earlier), sent);
    LabelledShape(ms, false, 0);
    var f := Run(Initialised(Session(map[], earlier)), Calls(sent));
    assert TableName(Root) == "JSON_VAR";
    if Clean(ms, false) {
      CleanIsEnough(ms, false, 0);
      CleanDistinct(ms, false, 0, 0);
      RebuiltExact(f, Root, sent, 0, depth);
    }
    if Rebuilt(f, "JSON_VAR", false, depth) == ms {
      RebuiltOnlyDistinct(f, Root, sent, ms, 0, depth);
      RebuiltExact(f, Root, sent, 0, depth);
      CleanIsNeeded(ms, false, 0, 0);
    }
  }

  // ----- what does not come back -----

  /** The document {"a-b": x, "a_b": y}. */
  function DashAndLine(x: int32, y: int32): Members { More("a-b", Int(x), More("a_b", Int(y), Nil)) }

  lemma DashAndLineKeys(x: int32, y: int32)
    ensures var ms := DashAndLine(x, y);
      Plain(ms, false) && NoTwins(ms, false) && Depth(ms) == 0 && !AllDistinct(ms, false) && !Clean(ms, false)
  {
    assert !IsKeyChar("a-b"[1]);
    assert Depth(More("a_b", Int(y), Nil)) == 0;
    assert Sanitised("a-b") == "a_b" == Sanitised("a_b");
  }

  /** Two keys that are the same once sanitised: the document is lost, built by a script or parsed. */
  lemma DashIsLine(earlier: seq<Members>, x: int32, y: int32, depth: nat)
    ensures var ms, e := DashAndLine(x, y), Initialised(Session(map[], earlier));
      && Rebuilt(Run(e, Calls(ms)), "JSON_VAR", false, depth) != ms
      && Rebuilt(Run(e, Calls(Labelled(ms, false, 0))), "JSON_VAR", false, depth) != ms
  {
    DashAndLineKeys(x, y);
    hide *;
    ScriptRoundTrip(earlier, DashAndLine(x, y), depth);
    ParseRoundTrip(earlier, DashAndLine(x, y), depth);
  }
}
