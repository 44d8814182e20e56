/**
 The challenge and the flag string of vtun's authentication
 (compiled-tools/myvtun/my-modifications/auth.c:94-106 and 126-310).
 */
module Auth {

  // ----- the challenge -----

  type Bytes = seq<bv8>

  /** The password, repeated. */
  function Mask(pwd: Bytes, i: nat): bv8
    requires pwd != []
  {
    pwd[i % |pwd|]
  }

  function Masked(chal: Bytes, pwd: Bytes): (r: Bytes)
    requires pwd != []
    ensures |r| == |chal| && forall i :: 0 <= i < |chal| ==> r[i] == Xor(chal[i], Mask(pwd, i))
  {
    seq(|chal|, i requires 0 <= i < |chal| => Xor(chal[i], Mask(pwd, i)))
  }

  function Xor(a: bv8, b: bv8): bv8 { a ^ b }

  /** encrypt_chal, which is decrypt_chal too */
  method EncryptChal(chal: array<bv8>, pwd: Bytes)
    requires pwd != []
    modifies chal
    ensures chal[..] == Masked(old(chal[..]), pwd)
  {
    var i := 0;
    while i < chal.Length
      invariant 0 <= i <= chal.Length
      invariant forall j :: 0 <= j < i ==> chal[j] == Xor(old(chal[j]), Mask(pwd, j))
      invariant forall j :: i <= j < chal.Length ==> chal[j] == old(chal[j])
    {
      chal[i] := chal[i] ^ pwd[i % |pwd|];
      i := i + 1;
    }
  }

  /** Masking twice gives the challenge back exactly if the two passwords repeat to the same mask. */
  lemma MaskedBack(chal: Bytes, p: Bytes, q: Bytes)
    requires p != [] && q != []
    ensures Masked(Masked(chal, p), q) == chal <==> forall i :: 0 <= i < |chal| ==> Mask(p, i) == Mask(q, i)
  {
    var r := Masked(Masked(chal, p), q);
    assert forall i :: 0 <= i < |chal| ==> (r[i] == chal[i] <==> Mask(p, i) == Mask(q, i));
    hide Masked;
    assert r == chal <==> forall i :: 0 <= i < |chal| ==> r[i] == chal[i];
  }

  // ----- the challenge as text -----

  function Nibble(n: bv8): (c: char)
    requires n < 16
    ensures 'a' <= c <= 'p'
  {
    'a' + (n as int as char)
  }

  /** The two halves of a byte. */
  function High(b: bv8): (n: bv8)
    ensures n < 16
  {
    (b & 0xf0) >> 4
  }

  function Low(b: bv8): (n: bv8)
    ensures n < 16
  {
    b & 0x0f
  }

  function Hex(chal: Bytes): string
  {
    if chal == [] then []
    else Hex(chal[..|chal| - 1]) + [Nibble(High(chal[|chal| - 1])), Nibble(Low(chal[|chal| - 1]))]
  }

  /** cl2cs */
  method Cl2Cs(chal: array<bv8>) returns (str: string)
    ensures str == "<" + Hex(chal[..]) + ">"
  {
    hide Hex, Nibble, High, Low;
    str := "<";
    var i := 0;
    HexMore([], 0);
    while i < chal.Length
      invariant 0 <= i <= chal.Length && str == "<" + Hex(chal[..i])
    {
      HexMore(chal[..i], chal[i]);
      assert chal[..i + 1] == chal[..i] + [chal[i]];
      str := str + [Nibble(High(chal[i]))];
      str := str + [Nibble(Low(chal[i]))];
      i := i + 1;
    }
    str := str + ">";
    assert chal[..chal.Length] == chal[..];
  }

  lemma HexMore(chal: Bytes, b: bv8)
    ensures Hex([]) == [] && Hex(chal + [b]) == Hex(chal) + [Nibble(High(b)), Nibble(Low(b))]
  {
    hide High, Low, Nibble;
    assert (chal + [b])[..|chal|] == chal;
  }

  /** One byte from two characters, as 8-bit arithmetic does it. */
  function Byte(c: char, d: char): bv8
  {
    (((c as int - 'a' as int) % 256) as bv8 << 4) | (((d as int - 'a' as int) % 256) as bv8)
  }

  lemma NibbleBack(n: bv8)
    requires n < 16
    ensures (Nibble(n) as int - 'a' as int) % 256 == n as int
  {
  }

  lemma ByteOfNibbles(b: bv8)
    ensures Byte(Nibble(High(b)), Nibble(Low(b))) == b
  {
    var h, l := High(b), Low(b);
    NibbleBack(h);
    NibbleBack(l);
    assert (h << 4) | l == b;
    hide Nibble;
  }

  function IndexOf(s: string, c: char): (i: nat)
    ensures i <= |s| && (forall j :: 0 <= j < i ==> s[j] != c) && (i < |s| ==> s[i] == c)
  {
    if s == [] || s[0] == c then 0 else 1 + IndexOf(s[1..], c)
  }

  function Leading(s: string, delims: string): (i: nat)
    ensures i <= |s|
  {
    if s == [] || s[0] !in delims then 0 else 1 + Leading(s[1..], delims)
  }

  function TokenLength(s: string, delims: string): (i: nat)
    ensures i <= |s|
  {
    if s == [] || s[0] in delims then 0 else 1 + TokenLength(s[1..], delims)
  }

  /** strtok: where the token begins and ends; there is none if it begins at the end. */
  function Token(s: string, delims: string): (nat, nat)
  {
    var b := Leading(s, delims);
    (b, b + TokenLength(s[b..], delims))
  }

  function Pairs(s: string): Bytes
    requires |s| % 2 == 0
  {
    if s == [] then [] else Pairs(s[..|s| - 2]) + [Byte(s[|s| - 2], s[|s| - 1])]
  }

  /** cs2cl for a challenge of n bytes: what is between the brackets has to be twice as long. */
  function Decoded(str: string, n: nat): (bool, Bytes)
  {
    var b := IndexOf(str, '<');
    if b == |str| then (false, [])
    else
      var ptr := str[b + 1..];
      var t := Token(ptr, ">");
      if t.0 == |ptr| || t.1 != 2 * n then (false, []) else (true, Pairs(ptr[..2 * n]))
  }

  lemma {:induction false} LeadingIs(s: string, delims: string)
    ensures var k := Leading(s, delims);
      (forall j :: 0 <= j < k ==> s[j] in delims) && (k < |s| ==> s[k] !in delims)
  {
    if s != [] && s[0] in delims { LeadingIs(s[1..], delims); }
  }

  lemma {:induction false} TokenLengthIs(s: string, delims: string)
    ensures var k := TokenLength(s, delims);
      (forall j :: 0 <= j < k ==> s[j] !in delims) && (k < |s| ==> s[k] in delims)
  {
    if s != [] && s[0] !in delims { TokenLengthIs(s[1..], delims); }
  }

  /** The text begins with m characters, first k closing brackets and then others, and ends there or is closed. */
  ghost predicate Closed(ptr: string, m: nat, k: nat)
  {
    && k < m <= |ptr| && (forall j :: 0 <= j < k ==> ptr[j] == '>')
    && (forall j :: k <= j < m ==> ptr[j] != '>') && (m < |ptr| ==> ptr[m] == '>')
  }

  ghost predicate Encloses(ptr: string, m: nat) { exists k: nat :: Closed(ptr, m, k) }

  lemma ClosedStarts(ptr: string, m: nat, k: nat)
    requires Closed(ptr, m, k)
    ensures k < |ptr| && ptr[k] != '>'
  {
  }

  lemma TokenExactly(ptr: string, m: nat)
    ensures var t := Token(ptr, ">"); t.0 != |ptr| && t.1 == m <==> Encloses(ptr, m)
  {
    hide Leading, TokenLength;
    var k, t := Token(ptr, ">").0, Token(ptr, ">").1;
    LeadingIs(ptr, ">");
    TokenLengthIs(ptr[k..], ">");
    assert forall j :: k <= j < |ptr| ==> ptr[j] == ptr[k..][j - k];
    if c: nat :| Closed(ptr, m, c) { ClosedStarts(ptr, m, c); }
    if k < |ptr| {
      assert ptr[k] != '>';
      assert t > k by { assert ptr[k..][0] == ptr[k]; }
      assert t < |ptr| ==> ptr[t] == '>';
      assert Closed(ptr, t, k);
      if c: nat :| Closed(ptr, m, c) { ClosedOnce(ptr, t, k, m, c); }
    }
  }

  lemma ClosedOnce(ptr: string, t: nat, k: nat, m: nat, c: nat)
    requires Closed(ptr, t, k) && Closed(ptr, m, c)
    ensures t == m && k == c
  {
    assert ptr[k] != '>' && ptr[c] != '>';
    assert t < |ptr| ==> !(c <= t < m);
    assert m < |ptr| ==> !(k <= m < t);
  }

  /**
   cs2cl accepts a line if and only if 2n characters stand between its first bracket and the next
   closing one, or the end; closing brackets right behind the first one count as characters.
   */
  lemma DecodedExactly(str: string, n: nat)
    ensures Decoded(str, n).0 <==> var b := IndexOf(str, '<'); b < |str| && Encloses(str[b + 1..], 2 * n)
  {
    hide *;
    DecodedIf(str, n);
    var b := IndexOf(str, '<');
    if b < |str| { TokenExactly(str[b + 1..], 2 * n); }
  }

  lemma DecodedIf(str: string, n: nat)
    ensures var b := IndexOf(str, '<');
      Decoded(str, n).0 <==> b < |str| && var t := Token(str[b + 1..], ">"); t.0 != |str| - b - 1 && t.1 == 2 * n
  {
    hide Pairs, Leading, TokenLength, IndexOf;
  }

  method Cs2Cl(str: string, chal: array<bv8>) returns (ok: bool)
    modifies chal
    ensures ok == Decoded(str, chal.Length).0
    ensures chal[..] == if ok then Decoded(str, chal.Length).1 else old(chal[..])
  {
    hide Byte, IndexOf;
    var b := IndexOf(str, '<');
    if b == |str| { return false; }
    var ptr := str[b + 1..];
    var t := Token(ptr, ">");
    if t.0 == |ptr| || t.1 != 2 * chal.Length { return false; }
    var i := 0;
    ghost var text := ptr[..2 * chal.Length];
    while i < chal.Length
      invariant 0 <= i <= chal.Length && chal[..i] == Pairs(text[..2 * i])
    {
      chal[i] := Byte(ptr[2 * i], ptr[2 * i + 1]);
      i := i + 1;
      assert text[..2 * i][..2 * i - 2] == text[..2 * i - 2];
      assert chal[..i] == chal[..i - 1] + [chal[i - 1]];
    }
    assert text[..2 * chal.Length] == text && chal[..chal.Length] == chal[..];
    return true;
  }

  lemma {:induction false} HexShape(chal: Bytes)
    ensures |Hex(chal)| == 2 * |chal| && forall i :: 0 <= i < |Hex(chal)| ==> 'a' <= Hex(chal)[i] <= 'p'
    decreases |chal|
  {
    if chal != [] {
      hide High, Low;
      HexShape(chal[..|chal| - 1]);
    }
  }

  lemma PairsMore(s: string, c: char, d: char)
    requires |s| % 2 == 0
    ensures |s + [c, d]| % 2 == 0 && Pairs(s + [c, d]) == Pairs(s) + [Byte(c, d)]
  {
    hide Byte;
    assert (s + [c, d])[..|s|] == s;
  }

  lemma {:induction false} PairsOfHex(chal: Bytes)
    ensures |Hex(chal)| % 2 == 0 && Pairs(Hex(chal)) == chal
    decreases |chal|
  {
    HexShape(chal);
    if chal != [] {
      hide High, Low, Nibble, Byte, Hex, Pairs;
      var front, last := chal[..|chal| - 1], chal[|chal| - 1];
      assert chal == front + [last];
      HexShape(front);
      PairsOfHex(front);
      HexMore(front, last);
      ByteOfNibbles(last);
      PairsMore(Hex(front), Nibble(High(last)), Nibble(Low(last)));
    } else {
      assert Hex(chal) == [];
    }
  }

  lemma {:induction false} TokenOf(w: string, d: char, rest: string)
    requires d !in w
    ensures TokenLength(w + [d] + rest, [d]) == |w|
  {
    if w == [] {
      assert (w + [d] + rest)[0] == d;
    } else {
      assert (w + [d] + rest)[1..] == w[1..] + [d] + rest;
      TokenOf(w[1..], d, rest);
    }
  }

  /** What cs2cl takes out of a line: the text between the brackets. */
  lemma DecodedText(before: string, text: string, rest: string, n: nat)
    requires '<' !in before && '>' !in text && text != [] && |text| == 2 * n
    ensures Decoded(before + "<" + text + ">" + rest, n) == (true, Pairs(text))
  {
    hide Pairs, IndexOf, Leading, TokenLength;
    var str := before + "<" + text + ">" + rest;
    assert str == before + ['<'] + (text + ['>'] + rest);
    BracketAt(before, text + ['>'] + rest);
    var ptr := str[|before| + 1..];
    assert ptr == text + ['>'] + rest;
    NoLeading(ptr, ">");
    TokenOf(text, '>', rest);
    assert ptr[0..] == ptr && ptr[..2 * n] == text;
  }

  lemma BracketAt(before: string, after: string)
    requires '<' !in before
    ensures IndexOf(before + ['<'] + after, '<') == |before|
  {
    var str := before + ['<'] + after;
    assert str[|before|] == '<' && forall j :: 0 <= j < |before| ==> str[j] == before[j];
  }

  lemma NoLeading(s: string, delims: string)
    requires s != [] && s[0] !in delims
    ensures Leading(s, delims) == 0
  {
  }

  /** cs2cl undoes cl2cs, whatever comes before the bracket and after it. */
  lemma ChallengeRoundTrip(chal: Bytes, before: string, rest: string)
    requires '<' !in before && chal != []
    ensures Decoded(before + "<" + Hex(chal) + ">" + rest, |chal|) == (true, chal)
  {
    hide Decoded, Hex, Pairs;
    HexShape(chal);
    PairsOfHex(chal);
    DecodedText(before, Hex(chal), rest, |chal|);
  }

  // ----- the challenge stage between two peers -----

  /** auth_client, stage ST_HOST: the answer to the server's challenge. */
  function ClientAnswer(line: string, n: nat, pwd: Bytes): (bool, string)
    requires pwd != []
  {
    if |line| < 2 || line[..2] != "OK" || !Decoded(line, n).0 then (false, [])
    else (true, "CHAL: <" + Hex(Masked(Decoded(line, n).1, pwd)) + ">\n")
  }

  /** auth_server, stage ST_CHAL: the words of the answer are taken apart and the challenge is compared. */
  function ServerAccepts(line: string, chal: Bytes, pwd: Bytes): bool
    requires pwd != []
  {
    var cut := line[Token(line, "\r\n").0..Token(line, "\r\n").1];
    var a := Token(cut, " :");
    if a.0 == |cut| then false
    else
      var after := if a.1 < |cut| then cut[a.1 + 1..] else [];
      var b := Token(after, " :");
      if b.0 == |after| || cut[a.0..a.1] != "CHAL" then false
      else
        var d := Decoded(after[b.0..b.1], |chal|);
        d.0 && Masked(d.1, pwd) == chal
  }

  lemma {:induction false} WholeToken(w: string, delims: string, d: string)
    requires (forall i :: 0 <= i < |w| ==> w[i] !in delims) && (d == [] || d[0] in delims)
    ensures TokenLength(w + d, delims) == |w|
  {
    if w == [] {
      assert w + d == d;
    } else {
      assert (w + d)[1..] == w[1..] + d;
      WholeToken(w[1..], delims, d);
    }
  }

  /**
   Two peers complete the challenge stage exactly if their passwords repeat to the same mask
   over the length of the challenge; honest ones with the same password always do.
   */
  lemma ChallengeStage(chal: Bytes, client: Bytes, server: Bytes)
    requires chal != [] && client != [] && server != []
    ensures var r := ClientAnswer("OK CHAL: <" + Hex(chal) + ">\n", |chal|, client);
      && r.0
      && (ServerAccepts(r.1, chal, server) <==> forall i :: 0 <= i < |chal| ==> Mask(client, i) == Mask(server, i))
  {
    hide *;
    ClientAnswers(chal, client);
    AnswerRead(Masked(chal, client), chal, server);
    MaskedBack(chal, client, server);
  }

  /** Which passwords agree is not only a matter of equality: a repeated one does, a longer one may not. */
  lemma PasswordPairs(chal: Bytes, x: bv8)
    requires |chal| > 1
    ensures ServerAccepts(ClientAnswer("OK CHAL: <" + Hex(chal) + ">\n", |chal|, [x]).1, chal, [x, x])
    ensures !ServerAccepts(ClientAnswer("OK CHAL: <" + Hex(chal) + ">\n", |chal|, [1]).1, chal, [1, 2])
  {
    hide *;
    ChallengeStage(chal, [x], [x, x]);
    ChallengeStage(chal, [1], [1, 2]);
    SomeMasks(x);
    assert Mask([1], 1) != Mask([1, 2], 1);
  }

  lemma SomeMasks(x: bv8)
    ensures forall i: nat :: Mask([x], i) == Mask([x, x], i)
    ensures Mask([1], 1) == 1 && Mask([1, 2], 1) == 2
  {
  }

  lemma ChallengeLine(text: string)
    ensures "OK CHAL: <" + text + ">\n" == "OK CHAL: " + "<" + text + ">" + "\n"
    ensures ("OK CHAL: <" + text + ">\n")[..2] == "OK"
  {
  }

  lemma ClientAnswers(chal: Bytes, pwd: Bytes)
    requires chal != [] && pwd != []
    ensures ClientAnswer("OK CHAL: <" + Hex(chal) + ">\n", |chal|, pwd)
        == (true, "CHAL: <" + Hex(Masked(chal, pwd)) + ">\n")
  {
    hide Decoded, Hex, Masked;
    ChallengeLine(Hex(chal));
    ChallengeRoundTrip(chal, "OK CHAL: ", "\n");
  }

  /** The two words that the server finds in a line. */
  lemma TwoWords(a: string, b: string)
    requires a != [] && b != []
    requires forall i :: 0 <= i < |a| ==> a[i] !in " :\r\n"
    requires forall i :: 0 <= i < |b| ==> b[i] !in " :\r\n"
    ensures var line := a + ": " + b + "\n";
      && Token(line, "\r\n") == (0, |line| - 1)
      && var cut := line[0..|line| - 1];
      && Token(cut, " :") == (0, |a|) && cut[0..|a|] == a
      && Token(cut[|a| + 1..], " :") == (1, 1 + |b|) && cut[|a| + 1..][1..1 + |b|] == b
  {
    hide Leading, TokenLength;
    var cut := a + ": " + b;
    assert cut == a + (": " + b) && a + ": " + b + "\n" == cut + "\n";
    forall i | 0 <= i < |cut| ensures cut[i] !in "\r\n" {
      assert cut[i] == if i < |a| then a[i] else if i < |a| + 2 then ": "[i - |a|] else b[i - |a| - 2];
    }
    WholeToken(cut, "\r\n", "\n");
    NoLeading(cut + "\n", "\r\n");
    assert (cut + "\n")[0..] == cut + "\n" && (cut + "\n")[0..|cut|] == cut;
    WholeToken(a, " :", ": " + b);
    NoLeading(cut, " :");
    assert cut[0..] == cut && cut[0..|a|] == a;
    var after := cut[|a| + 1..];
    assert after == " " + b && after[1..] == b && b + "" == b && after[1..1 + |b|] == b;
    WholeToken(b, " :", "");
    OneLeading(b);
  }

  lemma OneLeading(b: string)
    requires b != [] && b[0] !in " :"
    ensures Leading(" " + b, " :") == 1
  {
    assert (" " + b)[1..] == b;
    assert Leading(b, " :") == 0;
  }

  lemma AnswerLine(text: string)
    ensures "CHAL: <" + text + ">\n" == "CHAL" + ": " + ("<" + text + ">") + "\n"
    ensures "" + "<" + text + ">" + "" == "<" + text + ">"
  {
  }

  lemma AnswerRead(m: Bytes, chal: Bytes, pwd: Bytes)
    requires |m| == |chal| && chal != [] && pwd != []
    ensures ServerAccepts("CHAL: <" + Hex(m) + ">\n", chal, pwd) == (Masked(m, pwd) == chal)
  {
    hide Decoded, Hex, Masked, Token;
    var word := "<" + Hex(m) + ">";
    HexShape(m);
    forall i | 0 <= i < |word| ensures word[i] !in " :\r\n" {
      assert word[i] == if i == 0 then '<' else if i <= |Hex(m)| then Hex(m)[i - 1] else '>';
    }
    TwoWords("CHAL", word);
    AnswerLine(Hex(m));
    ChallengeRoundTrip(m, "", "");
  }
}
