/**
 The names under which `jshn.sh` keeps a JSON document in the environment, and the
 proof that no two of them collide.
 */
module JsonNames {
  import opened Decimal

  /** A table of the store: the document itself, an object or an array. */
  datatype Table = Root | Object(n: nat) | Array(n: nat)

  /** The variables of the store. */
  datatype Var =
    | SeqVar | Cur | Unset | RootType
    | Up(t: Table) | Keys(t: Table) | SeqOf(t: Table)
    | Value(t: Table, k: string) | TypeVar(t: Table, k: string) | NameVar(t: Table, k: string)

  function TableName(t: Table): (s: string)
    ensures |s| >= 8
  {
    match t
    case Root => "JSON_VAR"
    case Object(n) => "JSON_TABLE" + Dec(n)
    case Array(n) => "JSON_ARRAY" + Dec(n)
  }

  function Render(v: Var): (s: string)
    ensures |s| >= 8
  {
    match v
    case SeqVar => "JSON_SEQ"
    case Cur => "JSON_CUR"
    case Unset => "JSON_UNSET"
    case RootType => "TYPE_JSON_VAR"
    case Up(t) => "UP_" + TableName(t)
    case Keys(t) => "KEYS_" + TableName(t)
    case SeqOf(t) => "SEQ_" + TableName(t)
    case Value(t, k) => TableName(t) + "_" + k
    case TypeVar(t, k) => "TYPE_" + (TableName(t) + "_" + k)
    case NameVar(t, k) => "NAME_" + (TableName(t) + "_" + k)
  }

  /** Digits followed by an underscore end where the first underscore is. */
  lemma DigitsEnd(d: string, k: string, e: string, l: string)
    requires AllDigits(d) && AllDigits(e) && d + "_" + k == e + "_" + l
    ensures d == e && k == l
  {
    NotLonger(d, k, e, l);
    NotLonger(e, l, d, k);
    var s := d + "_" + k;
    assert d == s[..|d|] && e == s[..|e|];
    assert k == s[|d| + 1..] && l == s[|e| + 1..];
  }

  lemma NotLonger(d: string, k: string, e: string, l: string)
    requires AllDigits(e) && d + "_" + k == e + "_" + l
    ensures |e| <= |d|
  {
    var s := e + "_" + l;
    assert s[|d|] == '_';
    assert forall i :: 0 <= i < |e| ==> IsDigit(s[i]);
  }

  lemma DropCommon(p: string, s: string, t: string)
    requires p + s == p + t
    ensures s == t
  {
    assert (p + s)[|p|..] == s && (p + t)[|p|..] == t;
  }

  lemma TableNameAt(t: Table)
    ensures TableName(t)[..5] == "JSON_"
    ensures TableName(t)[5] == match t case Root => 'V' case Object(_) => 'T' case Array(_) => 'A'
  {
  }

  lemma TableInjective(t: Table, u: Table)
    requires TableName(t) == TableName(u)
    ensures t == u
  {
    TableNameAt(t);
    TableNameAt(u);
    match t
    case Root =>
    case Object(n) => DropCommon("JSON_TABLE", Dec(n), Dec(u.n)); DecInjective(n, u.n);
    case Array(n) => DropCommon("JSON_ARRAY", Dec(n), Dec(u.n)); DecInjective(n, u.n);
  }

  /** The table and the key can be read back from the name of a value. */
  lemma ValueInjective(t: Table, k: string, u: Table, l: string)
    requires TableName(t) + "_" + k == TableName(u) + "_" + l
    ensures t == u && k == l
  {
    var s := TableName(t) + "_" + k;
    TableNameAt(t);
    TableNameAt(u);
    assert s[5] == TableName(t)[5] && s[5] == TableName(u)[5];
    match t
    case Root =>
      assert s == "JSON_VAR_" + k && s == "JSON_VAR_" + l;
      DropCommon("JSON_VAR_", k, l);
    case Object(n) => NumberedInjective("JSON_TABLE", n, k, u.n, l);
    case Array(n) => NumberedInjective("JSON_ARRAY", n, k, u.n, l);
  }

  lemma NumberedInjective(p: string, n: nat, k: string, m: nat, l: string)
    requires p + Dec(n) + "_" + k == p + Dec(m) + "_" + l
    ensures n == m && k == l
  {
    assert p + Dec(n) + "_" + k == p + (Dec(n) + "_" + k);
    assert p + Dec(m) + "_" + l == p + (Dec(m) + "_" + l);
    DropCommon(p, Dec(n) + "_" + k, Dec(m) + "_" + l);
    DecDigits(n);
    DecDigits(m);
    DigitsEnd(Dec(n), k, Dec(m), l);
    DecInjective(n, m);
  }

  /** The first character, and for the JSON_ names the sixth, tells the kind of variable. */
  function Kind(v: Var): (char, char)
  {
    match v
    case SeqVar => ('J', 'S')
    case Cur => ('J', 'C')
    case Unset => ('J', 'U')
    case RootType => ('T', ' ')
    case Up(_) => ('U', ' ')
    case Keys(_) => ('K', ' ')
    case SeqOf(_) => ('S', ' ')
    case Value(t, _) => ('J', match t case Root => 'V' case Object(_) => 'T' case Array(_) => 'A')
    case TypeVar(_, _) => ('T', ' ')
    case NameVar(_, _) => ('N', ' ')
  }

  lemma RenderKind(v: Var)
    ensures Render(v)[0] == Kind(v).0 && (Kind(v).0 == 'J' ==> Render(v)[5] == Kind(v).1)
  {
    if v.Value? { TableNameAt(v.t); }
  }

  /** No two variables of the store share a name. */
  lemma RenderInjective(v: Var, w: Var)
    requires Render(v) == Render(w)
    ensures v == w
  {
    RenderKind(v);
    RenderKind(w);
    match v
    case Up(t) => DropCommon("UP_", TableName(t), TableName(w.t)); TableInjective(t, w.t);
    case Keys(t) => DropCommon("KEYS_", TableName(t), TableName(w.t)); TableInjective(t, w.t);
    case SeqOf(t) => DropCommon("SEQ_", TableName(t), TableName(w.t)); TableInjective(t, w.t);
    case Value(t, k) => ValueInjective(t, k, w.t, w.k);
    case NameVar(t, k) =>
      DropCommon("NAME_", TableName(t) + "_" + k, TableName(w.t) + "_" + w.k);
      ValueInjective(t, k, w.t, w.k);
    case TypeVar(t, k) =>
      DropCommon("TYPE_", TableName(t) + "_" + k, TableName(w.t) + "_" + w.k);
      ValueInjective(t, k, w.t, w.k);
    case RootType => assert forall t, k :: Render(TypeVar(t, k)) != Render(v);
    case _ =>
  }
}
