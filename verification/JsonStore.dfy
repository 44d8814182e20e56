/**
 The environment store of `jshn.sh` (compiled-tools/json/jshn.sh:48-148): every function
 of the script as a method on the shell's variables, and the run of a list of commands.
 */
module JsonStore {
  import opened Decimal
  import opened JsonTree

  type Env = map<string, string>

  /** `$name`: an unset variable reads as the empty string. */
  function Text(e: Env, name: string): string { if name in e then e[name] else "" }

  /** `${s%%[0-9]*}` */
  function BeforeDigit(s: string): string
  {
    if s == [] || IsDigit(s[0]) then [] else [s[0]] + BeforeDigit(s[1..])
  }

  /** `${x:-0}` as a number. */
  function Number(text: string): nat { if AllDigits(text) then Undec(text) else 0 }

  function Incremented(e: Env, name: string): Env { e[name := Dec(Number(Text(e, name)) + 1)] }

  function Appended(e: Env, name: string, token: string): Env { e[name := Text(e, name) + " " + token] }

  predicate IsArrayName(cur: string) { BeforeDigit(cur) == "JSON_ARRAY" }

  /** The key under which `name` is stored in table `cur`, after the name has been dealt with. */
  function Prepared(e: Env, name: string, cur: string): Env
  {
    if IsArrayName(cur) then Incremented(e, "SEQ_" + cur)
    else if Sanitised(name) == name then e
    else e["NAME_" + (cur + "_" + Sanitised(name)) := name]
  }

  function KeyFor(e: Env, name: string, cur: string): string
  {
    if IsArrayName(cur) then Dec(Number(Text(e, "SEQ_" + cur)) + 1) else Sanitised(name)
  }

  function AddedGeneric(e: Env, typ: string, name: string, value: string, cur: string): Env
  {
    var key := KeyFor(e, name, cur);
    var stored := Prepared(e, name, cur)[cur + "_" + key := value]["TYPE_" + (cur + "_" + key) := typ];
    Appended(Appended(stored, "JSON_UNSET", cur + "_" + key), "KEYS_" + cur, key)
  }

  /** The state once a new table is the current one, before its parent knows about it. */
  function Opened(e: Env, table: string): Env
  {
    var linked := Incremented(e, "JSON_SEQ")["UP_" + table := Text(e, "JSON_CUR")];
    var created := linked["KEYS_" + table := ""] - {"SEQ_" + table};
    Appended(created["JSON_CUR" := table], "JSON_UNSET", table)
  }

  function NewTable(e: Env, isArray: bool): string
  {
    (if isArray then "JSON_ARRAY" else "JSON_TABLE") + Dec(Number(Text(e, "JSON_SEQ")) + 1)
  }

  function AddedTable(e: Env, name: string, isArray: bool): Env
  {
    var table := NewTable(e, isArray);
    AddedGeneric(Opened(e, table), if isArray then "array" else "object", name, table, Text(e, "JSON_CUR"))
  }

  function Closed(e: Env): Env { e["JSON_CUR" := Text(e, "UP_" + Text(e, "JSON_CUR"))] }

  function Step(e: Env, c: Command): Env
  {
    match c
    case Open(name, isArray) => AddedTable(e, name, isArray)
    case Close => Closed(e)
    case Add(typ, name, value) => AddedGeneric(e, typ, name, value, Text(e, "JSON_CUR"))
  }

  function Run(e: Env, cs: seq<Command>): Env
    decreases |cs|
  {
    if cs == [] then e else Run(Step(e, cs[0]), cs[1..])
  }

  lemma {:induction false} RunSplit(e: Env, cs: seq<Command>, ds: seq<Command>)
    ensures Run(e, cs + ds) == Run(Run(e, cs), ds)
    decreases |cs|
  {
    if cs == [] {
      assert cs + ds == ds;
    } else {
      assert (cs + ds)[1..] == cs[1..] + ds;
      RunSplit(Step(e, cs[0]), cs[1..], ds);
    }
  }

  // ----- words -----

  function WordPrefix(s: string): (w: string)
    ensures |w| <= |s| && w == s[..|w|]
    ensures s != [] && s[0] != ' ' ==> |w| > 0
  {
    if s == [] || s[0] == ' ' then [] else [s[0]] + WordPrefix(s[1..])
  }

  /** The words between blanks; no word is empty (`strtok_r`, and an unquoted expansion). */
  function Words(s: string): seq<string>
    decreases |s|
  {
    if s == [] then []
    else if s[0] == ' ' then Words(s[1..])
    else [WordPrefix(s)] + Words(s[|WordPrefix(s)|..])
  }

  lemma {:induction false} PrefixOfWord(s: string, t: string)
    ensures WordPrefix(s + " " + t) == WordPrefix(s)
  {
    if s == [] {
      assert (s + " " + t)[0] == ' ';
    } else {
      assert (s + " " + t)[1..] == s[1..] + " " + t;
      PrefixOfWord(s[1..], t);
    }
  }

  lemma {:induction false} WholeWord(w: string)
    requires ' ' !in w
    ensures WordPrefix(w) == w
  {
    if w != [] { WholeWord(w[1..]); }
  }

  /** Appending a token adds it as the last word; an empty token adds nothing. */
  lemma {:induction false} WordsAppended(s: string, w: string)
    requires ' ' !in w
    ensures Words(s + " " + w) == Words(s) + (if w == [] then [] else [w])
    decreases |s|
  {
    var t := s + " " + w;
    if s == [] {
      assert t[0] == ' ' && t[1..] == w;
      WholeWord(w);
      assert w != [] ==> w[|w|..] == [];
    } else if s[0] == ' ' {
      assert t[1..] == s[1..] + " " + w;
      WordsAppended(s[1..], w);
    } else {
      PrefixOfWord(s, w);
      var n := |WordPrefix(s)|;
      assert t[n..] == s[n..] + " " + w;
      WordsAppended(s[n..], w);
      assert [WordPrefix(s)] + (Words(s[n..]) + (if w == [] then [] else [w]))
          == ([WordPrefix(s)] + Words(s[n..])) + (if w == [] then [] else [w]);
    }
  }

  /** `_jshn_append` adds one word to its variable and touches no other. */
  lemma AppendedWord(e: Env, name: string, token: string)
    requires ' ' !in token && token != ""
    ensures var r := Appended(e, name, token);
      && Words(Text(r, name)) == Words(Text(e, name)) + [token]
      && forall n :: n != name ==> Text(r, n) == Text(e, n)
  {
    WordsAppended(Text(e, name), token);
  }

  /** `_json_inc` counts its variable up by one, from 0 if it is unset, and touches no other. */
  lemma IncrementedByOne(e: Env, name: string)
    ensures var r := Incremented(e, name);
      && Number(Text(r, name)) == Number(Text(e, name)) + 1
      && (name !in e ==> Text(r, name) == "1")
      && forall n :: n != name ==> Text(r, n) == Text(e, n)
  {
    UndecDec(Number(Text(e, name)) + 1);
  }

  // ----- json_init -----

  function Cleared(e: Env, token: string): Env
  {
    e - {"UP_" + token, "KEYS_" + token, "SEQ_" + token, "TYPE_" + token, "NAME_" + token, token}
  }

  function UnsetAll(e: Env, tokens: seq<string>): Env
  {
    if tokens == [] then e else UnsetAll(Cleared(e, tokens[0]), tokens[1..])
  }

  function Initialised(e: Env): Env
  {
    var cleaned := UnsetAll(e, Words(Text(e, "JSON_UNSET")) + ["JSON_VAR"]) - {"JSON_SEQ", "JSON_CUR", "JSON_UNSET"};
    cleaned["JSON_SEQ" := "0"]["JSON_CUR" := "JSON_VAR"]["KEYS_JSON_VAR" := ""]["TYPE_JSON_VAR" := ""]
  }

  /** The shell that has sourced the script. */
  class Shell {
    var env: Env

    constructor (e: Env)
      ensures env == e
    {
      env := e;
    }

    method Inc(name: string)
      modifies this
      ensures env == Incremented(old(env), name)
    {
      env := env[name := Dec(Number(Text(env, name)) + 1)];
    }

    method Append(name: string, token: string)
      modifies this
      ensures env == Appended(old(env), name, token)
    {
      env := env[name := Text(env, name) + " " + token];
    }

    method AddGeneric(typ: string, name: string, value: string, cur: string)
      modifies this
      ensures env == AddedGeneric(old(env), typ, name, value, cur)
    {
      var key;
      if BeforeDigit(cur) == "JSON_ARRAY" {
        Inc("SEQ_" + cur);
        key := Text(env, "SEQ_" + cur);
      } else {
        key := Sanitised(name);
        if key != name {
          env := env["NAME_" + (cur + "_" + key) := name];
        }
      }
      env := env[cur + "_" + key := value];
      env := env["TYPE_" + (cur + "_" + key) := typ];
      Append("JSON_UNSET", cur + "_" + key);
      Append("KEYS_" + cur, key);
    }

    method AddTable(name: string, isArray: bool)
      modifies this
      ensures env == AddedTable(old(env), name, isArray)
    {
      var cur := Text(env, "JSON_CUR");
      Inc("JSON_SEQ");
      var table := (if isArray then "JSON_ARRAY" else "JSON_TABLE") + Text(env, "JSON_SEQ");
      env := env["UP_" + table := cur];
      env := env["KEYS_" + table := ""];
      env := env - {"SEQ_" + table};
      env := env["JSON_CUR" := table];
      Append("JSON_UNSET", table);
      AddGeneric(if isArray then "array" else "object", name, table, cur);
    }

    method CloseTable()
      modifies this
      ensures env == Closed(old(env))
    {
      var cur := Text(env, "JSON_CUR");
      env := env["JSON_CUR" := Text(env, "UP_" + cur)];
    }

    method Init()
      modifies this
      ensures env == Initialised(old(env))
    {
      var tokens := Words(Text(env, "JSON_UNSET")) + ["JSON_VAR"];
      ghost var all := tokens;
      while tokens != []
        invariant UnsetAll(env, tokens) == UnsetAll(old(env), all)
        decreases |tokens|
      {
        env := Cleared(env, tokens[0]);
        tokens := tokens[1..];
      }
      env := env - {"JSON_SEQ", "JSON_CUR", "JSON_UNSET"};
      env := env["JSON_SEQ" := "0"];
      env := env["JSON_CUR" := "JSON_VAR"];
      env := env["KEYS_JSON_VAR" := ""];
      env := env["TYPE_JSON_VAR" := ""];
    }

    /** The shell runs the commands one after the other. */
    method Execute(cs: seq<Command>)
      modifies this
      ensures env == Run(old(env), cs)
    {
      var rest := cs;
      while rest != []
        invariant Run(env, rest) == Run(old(env), cs)
        decreases |rest|
      {
        match rest[0] {
          case Open(name, isArray) => AddTable(name, isArray);
          case Close => CloseTable();
          case Add(typ, name, value) =>
            var cur := Text(env, "JSON_CUR");
            AddGeneric(typ, name, value, cur);
        }
        rest := rest[1..];
      }
    }
  }
}
