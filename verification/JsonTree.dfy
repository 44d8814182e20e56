/**
 JSON documents and the shell commands that `jshn` writes for them
 (compiled-tools/json/jshn.c:37-155).
 */
module JsonTree {
  import opened Decimal

  type int32 = i: int | -0x8000_0000 <= i < 0x8000_0000

  /** An array is a table too; the keys of its members carry no meaning. */
  datatype Json =
    | Table(isArray: bool, members: Members)
    | Str(s: string)
    | Int(i: int32)
    | Bool(b: bool)

  datatype Members = Nil | More(key: string, value: Json, rest: Members)

  function Count(ms: Members): nat
  {
    if ms.Nil? then 0 else 1 + Count(ms.rest)
  }

  /** The number of tables in a value. */
  function Tables(v: Json): nat
  {
    if v.Table? then 1 + TablesIn(v.members) else 0
  }

  function TablesIn(ms: Members): nat
  {
    if ms.Nil? then 0 else Tables(ms.value) + TablesIn(ms.rest)
  }

  function Depth(ms: Members): nat
  {
    if ms.Nil? then 0
    else
      var d := if ms.value.Table? then 1 + Depth(ms.value.members) else 0;
      if d < Depth(ms.rest) then Depth(ms.rest) else d
  }

  function TypeName(v: Json): string
  {
    match v
    case Table(isArray, _) => if isArray then "array" else "object"
    case Str(_) => "string"
    case Int(_) => "int"
    case Bool(_) => "boolean"
  }

  /** How a value that is not a table is written. */
  function Written(v: Json): string
    requires !v.Table?
  {
    match v
    case Str(s) => s
    case Int(i) => Signed(i)
    case Bool(b) => if b then "1" else "0"
  }

  predicate IsKeyChar(c: char)
  {
    'a' <= c <= 'z' || 'A' <= c <= 'Z' || '0' <= c <= '9' || c == '_'
  }

  function KeyChar(c: char): char { if IsKeyChar(c) then c else '_' }

  /** The key with every other character turned into an underscore. */
  function Sanitised(s: string): (r: string)
    ensures |r| == |s| && forall i :: 0 <= i < |r| ==> IsKeyChar(r[i])
    ensures r == s <==> forall i :: 0 <= i < |s| ==> IsKeyChar(s[i])
  {
    seq(|s|, i requires 0 <= i < |s| => KeyChar(s[i]))
  }

  /** The keys of an array member are its positions, those of an object are sanitised. */
  function Labelled(ms: Members, isArray: bool, i: nat): Members
  {
    match ms
    case Nil => Nil
    case More(k, v, rest) =>
      More(if isArray then Dec(i) else Sanitised(k), LabelledValue(v), Labelled(rest, isArray, i + 1))
  }

  function LabelledValue(v: Json): Json
  {
    if v.Table? then Table(v.isArray, Labelled(v.members, v.isArray, 0)) else v
  }

  // ----- the commands -----

  datatype Command = Open(name: string, isArray: bool) | Close | Add(typ: string, name: string, value: string)

  /** The calls a script makes to build the members of a table. */
  function Calls(ms: Members): seq<Command>
    decreases ms
  {
    if ms.Nil? then [] else CallsFor(ms.key, ms.value) + Calls(ms.rest)
  }

  function CallsFor(key: string, v: Json): seq<Command>
    decreases v
  {
    if v.Table? then [Open(key, v.isArray)] + Calls(v.members) + [Close]
    else [Add(TypeName(v), key, Written(v))]
  }

  function Weight(ms: Members): nat
  {
    if ms.Nil? then 0
    else 1 + (if ms.value.Table? then Weight(ms.value.members) else 0) + Weight(ms.rest)
  }

  /** add_json_object and add_json_array: one loop over the members. */
  method AddElements(ms: Members, isArray: bool) returns (out: seq<Command>)
    ensures out == Calls(Labelled(ms, isArray, 0))
    decreases Weight(ms), 0
  {
    hide Calls, CallsFor, Labelled, LabelledValue, Weight, WriteKey;
    out := [];
    var rest, i := ms, 0;
    while rest.More?
      invariant out + Calls(Labelled(rest, isArray, i)) == Calls(Labelled(ms, isArray, 0))
      invariant Weight(rest) <= Weight(ms)
      decreases Weight(rest)
    {
      CallsStep(rest, isArray, i);
      var key := if isArray then Dec(i) else WriteKey(rest.key);
      var one := AddElement(key, rest.value);
      out := out + one;
      rest, i := rest.rest, i + 1;
    }
    assert Calls(Labelled(rest, isArray, i)) == [] by { NoCalls(isArray, i); }
  }

  lemma NoCalls(isArray: bool, i: nat)
    ensures Calls(Labelled(Nil, isArray, i)) == []
  {
  }

  lemma CallsStep(ms: Members, isArray: bool, i: nat)
    requires ms.More?
    ensures var key := if isArray then Dec(i) else WriteKey(ms.key);
      Calls(Labelled(ms, isArray, i)) ==
      CallsFor(key, LabelledValue(ms.value)) + Calls(Labelled(ms.rest, isArray, i + 1))
    ensures Weight(ms.rest) < Weight(ms)
    ensures (if ms.value.Table? then Weight(ms.value.members) else 0) < Weight(ms)
  {
  }

  function WriteKey(key: string): string { Sanitised(key) }

  method AddElement(key: string, v: Json) returns (out: seq<Command>)
    ensures out == CallsFor(key, LabelledValue(v))
    decreases if v.Table? then Weight(v.members) else 0, 1
  {
    match v
    case Table(isArray, members) =>
      var inner := AddElements(members, isArray);
      out := [Open(key, isArray)] + inner + [Close];
    case _ => out := [Add(TypeName(v), key, Written(v))];
  }

  // ----- quoting of string values -----

  /** add_json_string: a quote closes the word, adds an escaped quote and opens it again. */
  function Quoted(s: string): string
  {
    if s == [] then []
    else (if s[0] == '\'' then "'\\''" else [s[0]]) + Quoted(s[1..])
  }

  function FindQuote(s: string): (n: nat)
    ensures n <= |s| && (forall i :: 0 <= i < n ==> s[i] != '\'') && (n < |s| ==> s[n] == '\'')
  {
    if s == [] || s[0] == '\'' then 0 else 1 + FindQuote(s[1..])
  }

  method AddJsonString(s: string) returns (out: string)
    ensures out == Quoted(s)
  {
    hide Quoted, FindQuote;
    var ptr := s;
    out := [];
    while FindQuote(ptr) < |ptr|
      invariant out + Quoted(ptr) == Quoted(s)
      decreases |ptr|
    {
      var n := FindQuote(ptr);
      QuotedStep(out, ptr, n);
      out := out + ptr[..n] + "'\\''";
      ptr := ptr[n + 1..];
    }
    QuotedEnd(ptr);
    out := out + ptr;
  }

  lemma QuotedStep(out: string, s: string, n: nat)
    requires n < |s| && s[n] == '\'' && forall i :: 0 <= i < n ==> s[i] != '\''
    ensures out + Quoted(s) == out + s[..n] + "'\\''" + Quoted(s[n + 1..])
  {
    QuotedPlain(s, n);
    assert s[n..][1..] == s[n + 1..];
  }

  lemma QuotedEnd(s: string)
    requires forall i :: 0 <= i < |s| ==> s[i] != '\''
    ensures Quoted(s) == s
  {
    QuotedPlain(s, |s|);
  }

  lemma {:induction false} QuotedPlain(s: string, n: nat)
    requires n <= |s| && forall i :: 0 <= i < n ==> s[i] != '\''
    ensures Quoted(s) == s[..n] + Quoted(s[n..])
  {
    if n > 0 {
      QuotedPlain(s[1..], n - 1);
      assert s[1..][n - 1..] == s[n..] && s[..n] == [s[0]] + s[1..][..n - 1];
    }
  }

  /**
   How a POSIX shell reads one word (XCU section 2.2): inside single quotes everything is
   literal, outside them a backslash protects the next character, and a blank or a semicolon
   ends the word. The result is the word and what is left of the line.
   */
  function ReadWord(s: string, inside: bool): (string, string)
  {
    if s == [] then ([], [])
    else if inside then
      if s[0] == '\'' then ReadWord(s[1..], false)
      else var r := ReadWord(s[1..], true); ([s[0]] + r.0, r.1)
    else if s[0] == '\'' then ReadWord(s[1..], true)
    else if s[0] == '\\' && |s| > 1 then var r := ReadWord(s[2..], false); ([s[1]] + r.0, r.1)
    else if s[0] in " ;\n" then ([], s)
    else var r := ReadWord(s[1..], false); ([s[0]] + r.0, r.1)
  }

  /** Whatever the string, the shell reads back exactly it, and the command ends after it. */
  lemma QuoteRoundTrip(s: string, tail: string)
    ensures ReadWord("'" + Quoted(s) + "';" + tail, false) == (s, ";" + tail)
  {
    var line := "'" + Quoted(s) + "';" + tail;
    assert line[1..] == Quoted(s) + "';" + tail;
    InsideQuotes(s, tail);
  }

  lemma {:induction false} InsideQuotes(s: string, tail: string)
    ensures ReadWord(Quoted(s) + "';" + tail, true) == (s, ";" + tail)
  {
    var line := Quoted(s) + "';" + tail;
    if s == [] {
      assert line[1..] == ";" + tail;
    } else {
      var more := Quoted(s[1..]) + "';" + tail;
      InsideQuotes(s[1..], tail);
      assert [s[0]] + s[1..] == s;
      if s[0] == '\'' {
        assert line == "'\\''" + more;
        assert line[1..] == "\\''" + more;
        assert line[1..][2..] == "'" + more;
        assert line[1..][2..][1..] == more;
        assert ReadWord("'" + more, false) == ReadWord(more, true);
        assert ReadWord(line[1..], false).0 == ['\''] + s[1..];
      } else {
        assert line == [s[0]] + more;
        assert line[1..] == more;
      }
    }
  }
}
