/**
 json_load (compiled-tools/json/jshn.sh:176-178): the output of `jshn -r` comes to eval without
 quotes around it, so the shell first splits it into words and eval joins them by blanks (POSIX
 XCU section 2.6.5 and the eval utility). Inside the quoted strings, too, every run of blanks,
 tabs and newlines becomes one blank.
 */
module JsonLoad {
  import opened JsonNames
  import opened JsonTree
  import opened JsonStore
  import opened JsonRun
  import opened JsonRebuild
  import opened JsonRoundTrip
  import opened JsonSession

  predicate IsBlank(c: char) { c in " \t\n" }

  /** Every run of blank characters becomes one blank. */
  function Squeezed(s: string): (r: string)
    ensures s != [] ==> r != [] && (r[0] == ' ' <==> IsBlank(s[0]))
  {
    if s == [] then []
    else
      var r := Squeezed(s[1..]);
      if !IsBlank(s[0]) then [s[0]] + r
      else if r != [] && r[0] == ' ' then r
      else " " + r
  }

  /** No tab, no newline, and no two blanks in a row. */
  predicate Steady(s: string)
  {
    && (forall i :: 0 <= i < |s| ==> s[i] != '\t' && s[i] != '\n')
    && (forall i :: 0 <= i < |s| - 1 ==> s[i] != ' ' || s[i + 1] != ' ')
  }

  lemma {:induction false} SqueezedShorter(s: string)
    ensures |Squeezed(s)| <= |s|
  {
    if s != [] { SqueezedShorter(s[1..]); }
  }

  lemma {:induction false} SteadyKept(s: string)
    ensures Squeezed(s) == s <==> Steady(s)
  {
    if s != [] {
      SteadyKept(s[1..]);
      SqueezedShorter(s[1..]);
      var r := Squeezed(s[1..]);
      assert s == [s[0]] + s[1..];
      if Steady(s) { assert Steady(s[1..]); }
      if Steady(s[1..]) && s[0] != '\t' && s[0] != '\n' && (s[0] != ' ' || |s| == 1 || s[1] != ' ') {
        assert forall i :: 0 < i < |s| ==> s[i] == s[1..][i - 1];
      }
      if Squeezed(s) == s {
        assert Squeezed(s)[1..] == s[1..];
        assert Squeezed(s) == [s[0]] + r;
      }
    }
  }

  /** Text can be squeezed part by part where no two blanks meet. */
  lemma {:induction false} SqueezedConcat(a: string, b: string)
    requires a == [] || b == [] || !IsBlank(a[|a| - 1]) || !IsBlank(b[0])
    ensures Squeezed(a + b) == Squeezed(a) + Squeezed(b)
  {
    if a == [] {
      assert a + b == b;
    } else if b == [] {
      assert a + b == a;
    } else {
      assert (a + b)[1..] == a[1..] + b;
      SqueezedConcat(a[1..], b);
    }
  }

  lemma {:induction false} QuotedSqueezed(s: string)
    ensures Squeezed(Quoted(s)) == Quoted(Squeezed(s))
  {
    if s != [] {
      QuotedSqueezed(s[1..]);
      var q, r := Quoted(s[1..]), Squeezed(s[1..]);
      if s[0] == '\'' {
        SqueezedConcat("'\\''", q);
        SteadyKept("'\\''");
        assert Squeezed(s)[1..] == r;
      } else {
        assert Quoted(s) == [s[0]] + q && Quoted(s)[1..] == q;
        assert s[1..] != [] ==> (IsBlank(q[0]) <==> IsBlank(s[1..][0]));
        assert (" " + r)[1..] == r && ([s[0]] + r)[1..] == r;
      }
    }
  }

  /** What the shell gets of a command that adds a string, and what it reads as the string. */
  lemma StringLoaded(key: string, s: string, tail: string)
    requires forall i :: 0 <= i < |key| ==> IsKeyChar(key[i])
    ensures var sent := "json_add_string '" + key + "' '" + Quoted(s) + "';" + tail;
      Squeezed(sent) == "json_add_string '" + key + "' '" + Quoted(Squeezed(s)) + "';" + Squeezed(tail)
    ensures ReadWord("'" + Quoted(Squeezed(s)) + "';" + Squeezed(tail), false) == (Squeezed(s), ";" + Squeezed(tail))
  {
    hide Quoted, ReadWord, Squeezed, Steady;
    var head, end := "json_add_string '" + key + "' '", "';";
    HeadSteady(key);
    SteadyKept(head);
    SteadyKept(end);
    assert Steady(end) by { EndSteady(); }
    QuotedSqueezed(s);
    SqueezedConcat(head, Quoted(s));
    SqueezedConcat(head + Quoted(s), end);
    SqueezedConcat(head + Quoted(s) + end, tail);
    assert head + Quoted(s) + end + tail == "json_add_string '" + key + "' '" + Quoted(s) + "';" + tail;
    QuoteRoundTrip(Squeezed(s), Squeezed(tail));
  }

  lemma HeadSteady(key: string)
    requires forall i :: 0 <= i < |key| ==> IsKeyChar(key[i])
    ensures Steady("json_add_string '" + key + "' '")
  {
    var a := "json_add_string '";
    var head := a + key + "' '";
    assert forall i :: 0 <= i < |a| ==> head[i] == a[i];
    assert forall i :: |a| <= i < |a| + |key| ==> head[i] == key[i - |a|];
    assert forall i :: |a| + |key| <= i < |head| ==> head[i] == "' '"[i - |a| - |key|];
  }

  lemma EndSteady()
    ensures Steady("';")
  {
  }

  // ----- documents -----

  /** The document whose strings have been squeezed; the keys that `jshn` prints have no blanks. */
  function SqueezedIn(ms: Members): Members
  {
    match ms
    case Nil => Nil
    case More(k, v, rest) => More(k, SqueezedValue(v), SqueezedIn(rest))
  }

  function SqueezedValue(v: Json): Json
  {
    match v
    case Table(isArray, members) => Table(isArray, SqueezedIn(members))
    case Str(s) => Str(Squeezed(s))
    case _ => v
  }

  /** No string in the document has a tab, a newline, or two blanks in a row. */
  predicate AllSteady(ms: Members)
  {
    ms.More? ==>
      && (ms.value.Str? ==> Steady(ms.value.s))
      && (ms.value.Table? ==> AllSteady(ms.value.members))
      && AllSteady(ms.rest)
  }

  lemma {:induction false} SteadyDocument(ms: Members)
    ensures SqueezedIn(ms) == ms <==> AllSteady(ms)
  {
    if ms.More? {
      SteadyDocument(ms.rest);
      match ms.value
      case Table(_, members) => SteadyDocument(members);
      case Str(s) => SteadyKept(s);
      case _ =>
    }
  }

  lemma {:induction false} SqueezedShape(ms: Members, isArray: bool, j: nat)
    ensures SameShape(Labelled(SqueezedIn(ms), isArray, j), ms)
    ensures Depth(SqueezedIn(ms)) == Depth(ms) == Depth(Labelled(SqueezedIn(ms), isArray, j))
  {
    hide Sanitised, Squeezed;
    if ms.More? {
      if ms.value.Table? { SqueezedShape(ms.value.members, ms.value.isArray, 0); }
      SqueezedShape(ms.rest, isArray, j + 1);
    }
  }

  /** A document that comes back has come back from commands with its own strings. */
  lemma {:induction false} SteadyIsNeeded(ms: Members, isArray: bool, j: nat)
    requires Stripped(Labelled(SqueezedIn(ms), isArray, j), isArray) == ms
    ensures SqueezedIn(ms) == ms
  {
    hide Sanitised, Squeezed;
    if ms.More? {
      if ms.value.Table? { SteadyIsNeeded(ms.value.members, ms.value.isArray, 0); }
      SteadyIsNeeded(ms.rest, isArray, j + 1);
    }
  }

  /**
   A parsed document that goes through json_load comes back as the same document if and only if
   every key of every object is a non-empty string over [A-Za-z0-9_] and no string has a tab, a
   newline, or two blanks in a row.
   */
  lemma LoadRoundTrip(earlier: seq<Members>, ms: Members, depth: nat)
    requires Plain(ms, false) && NoTwins(ms, false) && depth >= Depth(ms)
    ensures var f := Run(Initialised(Session(map[], earlier)), Calls(Labelled(SqueezedIn(ms), false, 0)));
      Rebuilt(f, "JSON_VAR", false, depth) == ms <==> Clean(ms, false) && AllSteady(ms)
  {
    hide Rebuilt, Session, Initialised, Run, Calls, Tidy, InStore, Stripped, Labelled, Clean, Plain, NoTwins, AllSteady,
         SqueezedIn, SameShape, AllDistinct, Depth;
    var sent := Labelled(SqueezedIn(ms), false, 0);
    var f := Run(Initialised(Session(map[], earlier)), Calls(sent));
    SteadyDocument(ms);
    ParseRoundTrip(earlier, ms, depth);
    if Rebuilt(f, "JSON_VAR", false, depth) == ms {
      EmptyTidy();
      SessionTidy(map[], earlier);
      Built(Session(map[], earlier), sent);
      SqueezedShape(ms, false, 0);
      assert TableName(Root) == "JSON_VAR";
      RebuiltOnlyDistinct(f, Root, sent, ms, 0, depth);
      RebuiltExact(f, Root, sent, 0, depth);
      SteadyIsNeeded(ms, false, 0);
    }
  }

  lemma EmptyTidy()
    ensures Tidy(map[])
  {
  }

  /** {"a": "x  y"}, two blanks: it comes back by itself, and not by way of json_load. */
  lemma TwoBlanks(earlier: seq<Members>, depth: nat)
    ensures var ms, e := More("a", Str("x  y"), Nil), Initialised(Session(map[], earlier));
      && Rebuilt(Run(e, Calls(Labelled(ms, false, 0))), "JSON_VAR", false, depth) == ms
      && Rebuilt(Run(e, Calls(Labelled(SqueezedIn(ms), false, 0))), "JSON_VAR", false, depth) != ms
  {
    var ms := More("a", Str("x  y"), Nil);
    assert Depth(ms) == 0 && Clean(ms, false) && Plain(ms, false) && NoTwins(ms, false);
    assert "x  y"[1] == ' ' && "x  y"[2] == ' ' && !Steady("x  y");
    assert !AllSteady(ms);
    hide *;
    ParseRoundTrip(earlier, ms, depth);
    LoadRoundTrip(earlier, ms, depth);
  }
}
