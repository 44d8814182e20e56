/**
 The flag string by which vtun's server tells the client how the tunnel is to be run
 (compiled-tools/myvtun/my-modifications/auth.c:126-268).
 */
module AuthFlags {
  import opened Decimal

  const LEGACY_ENCRYPT: int := 999
  /** The value of ERANGE, with which the parser compares every number it has read. */
  const ERANGE: int := 34

  datatype Kind = Kind(tcp: bool, udp: bool, tty: bool, pipe: bool, ether: bool, tun: bool)

  datatype Compression = Compression(zlib: bool, lzo: bool, level: int)

  datatype Speed = Speed(shape: bool, spdIn: int, spdOut: int)

  datatype Crypt = Crypt(encrypt: bool, cipher: int)

  /** struct vtun_host, as far as the string speaks of it: its flag bits and numbers. */
  datatype Host = Host(kind: Kind, keepAlive: bool, comp: Compression, speed: Speed, crypt: Crypt)

  // ----- printing -----

  function Protocol(h: Host): string
  {
    if h.kind.tcp && !h.kind.udp then "T" else if h.kind.udp && !h.kind.tcp then "U" else ""
  }

  function TunnelType(h: Host): string
  {
    match (h.kind.tty, h.kind.pipe, h.kind.ether, h.kind.tun)
    case (true, false, false, false) => "t"
    case (false, true, false, false) => "p"
    case (false, false, true, false) => "e"
    case (false, false, false, true) => "u"
    case _ => ""
  }

  /** A letter with a number, if the flag is set. */
  function Numbered(flag: bool, letter: char, n: int): string { if flag then [letter] + Signed(n) else "" }

  function Encryption(h: Host): string { Numbered(h.crypt.encrypt, 'E', h.crypt.cipher) + ">" }

  function Alive(h: Host): string { (if h.keepAlive then "K" else "") + Encryption(h) }

  function Lzo(h: Host): string { Numbered(h.comp.lzo, 'L', h.comp.level) + Alive(h) }

  function Zlib(h: Host): string { Numbered(h.comp.zlib, 'C', h.comp.level) + Lzo(h) }

  function Shaping(h: Host): string { Numbered(h.speed.shape, 'S', h.speed.spdIn) + Zlib(h) }

  function FlagString(h: Host): string { "<" + (Protocol(h) + (TunnelType(h) + Shaping(h))) }

  /** bf2cf */
  method Bf2Cf(h: Host) returns (str: string)
    ensures str == FlagString(h)
  {
    hide Signed, Protocol, TunnelType, Numbered;
    str := "<";
    str := str + Protocol(h);
    str := str + TunnelType(h);
    Regroup("<", Protocol(h), TunnelType(h), Shaping(h));
    str := AddNumber(str, h.speed.shape, 'S', h.speed.spdIn, Zlib(h));
    str := AddNumber(str, h.comp.zlib, 'C', h.comp.level, Lzo(h));
    str := AddNumber(str, h.comp.lzo, 'L', h.comp.level, Alive(h));
    Regroup(str, if h.keepAlive then "K" else "", Encryption(h), "");
    if h.keepAlive { str := str + "K"; } else { assert str + "" == str; }
    str := AddNumber(str, h.crypt.encrypt, 'E', h.crypt.cipher, ">");
    str := str + ">";
  }

  /** sprintf of a letter and a number if a flag is set; the ghost parameter is what is to come. */
  method AddNumber(str: string, flag: bool, letter: char, n: int, ghost rest: string) returns (r: string)
    ensures r == str + Numbered(flag, letter, n) && r + rest == str + (Numbered(flag, letter, n) + rest)
  {
    hide Signed;
    r := str;
    if flag {
      r := r + [letter];
      r := r + Signed(n);
      assert r == str + ([letter] + Signed(n));
    }
    Regroup(str, Numbered(flag, letter, n), rest, "");
  }

  lemma Regroup(a: string, b: string, c: string, d: string)
    ensures a + b + c + d == a + (b + (c + d))
    ensures a + b + c == a + (b + c)
  {
  }

  // ----- parsing -----

  /** strtol: the number at the front of s and how long it is, 0 if there is none. */
  function StrToL(s: string): (int, nat)
  {
    BlanksShorter(s);
    var t := SkipBlanks(s);
    var signed := t != [] && (t[0] == '-' || t[0] == '+');
    var digits := DigitPrefix(if signed then t[1..] else t);
    if digits == [] then (0, 0)
    else (if signed && t[0] == '-' then 0 - Undec(digits) else Undec(digits),
          |s| - |t| + (if signed then 1 else 0) + |digits|)
  }

  lemma {:induction false} BlanksShorter(s: string)
    ensures |SkipBlanks(s)| <= |s|
  {
    if s != [] && s[0] in " \t\n\r" { BlanksShorter(s[1..]); }
  }

  lemma {:induction false} DigitsShorter(s: string)
    ensures |DigitPrefix(s)| <= |s|
  {
    if s != [] && IsDigit(s[0]) { DigitsShorter(s[1..]); }
  }

  lemma NumberShorter(s: string)
    ensures StrToL(s).1 <= |s|
  {
    BlanksShorter(s);
    var t := SkipBlanks(s);
    DigitsShorter(t);
    if t != [] { DigitsShorter(t[1..]); }
  }

  /** The loop of cf2bf from the character at the front of s on. */
  function Parse(s: string, h: Host): (bool, Host)
    decreases |s|
  {
    if s == [] then (false, h)
    else
      var rest := s[1..];
      NumberShorter(rest);
      var (v, n) := StrToL(rest);
      match s[0]
      case 't' => Parse(rest, WithKind(h, h.kind.(tty := true)))
      case 'p' => Parse(rest, WithKind(h, h.kind.(pipe := true)))
      case 'e' => Parse(rest, WithKind(h, h.kind.(ether := true)))
      case 'u' => Parse(rest, WithKind(h, h.kind.(tun := true)))
      case 'U' => Parse(rest, WithKind(h, h.kind.(tcp := false, udp := true)))
      case 'T' => Parse(rest, WithKind(h, h.kind.(tcp := true, udp := false)))
      case 'K' => Parse(rest, h.(keepAlive := true))
      case 'C' => if v == ERANGE || n == 0 then (false, h) else Parse(rest[n..], Zipped(h, v))
      case 'L' => if v == ERANGE || n == 0 then (false, h) else Parse(rest[n..], Lzoed(h, v))
      case 'E' => if v == ERANGE then (false, h) else Parse(rest[n..], Encrypted(h, v))
      case 'S' => if v == ERANGE || n == 0 then (false, h) else Parse(rest[n..], Shaped(h, v))
      case 'F' => Parse(rest, h)
      case '>' => (true, h)
      case _ => (false, h)
  }

  function Encrypted(h: Host, v: int): Host { h.(crypt := Crypt(true, if v == 0 then LEGACY_ENCRYPT else v)) }

  function Shaped(h: Host, v: int): Host { if v != 0 then h.(speed := Speed(true, h.speed.spdIn, v)) else h }

  function WithKind(h: Host, k: Kind): Host { h.(kind := k) }

  function Zipped(h: Host, v: int): Host { h.(comp := Compression(true, h.comp.lzo, v)) }

  function Lzoed(h: Host, v: int): Host { h.(comp := Compression(h.comp.zlib, true, v)) }

  function AfterBracket(s: string): string
  {
    if s == [] then [] else if s[0] == '<' then s[1..] else AfterBracket(s[1..])
  }

  /** cf2bf; a line without a bracket has nothing after it, and fails too. */
  function Read(line: string, h: Host): (bool, Host) { Parse(AfterBracket(line), h) }

  method Cf2Bf(line: string, host: Host) returns (ok: bool, h: Host)
    ensures (ok, h) == Read(line, host)
  {
    var ptr := AfterBracket(line);
    h := host;
    while ptr != []
      invariant Parse(ptr, h) == Read(line, host)
      decreases |ptr|
    {
      var c := ptr[0];
      ptr := ptr[1..];
      NumberShorter(ptr);
      var (s, p) := StrToL(ptr);
      match c {
        case 't' => h := WithKind(h, h.kind.(tty := true));
        case 'p' => h := WithKind(h, h.kind.(pipe := true));
        case 'e' => h := WithKind(h, h.kind.(ether := true));
        case 'u' => h := WithKind(h, h.kind.(tun := true));
        case 'U' => h := WithKind(h, h.kind.(tcp := false, udp := true));
        case 'T' => h := WithKind(h, h.kind.(tcp := true, udp := false));
        case 'K' => h := h.(keepAlive := true);
        case 'C' =>
          if s == ERANGE || p == 0 { return false, h; }
          h := Zipped(h, s);
          ptr := ptr[p..];
        case 'L' =>
          if s == ERANGE || p == 0 { return false, h; }
          h := Lzoed(h, s);
          ptr := ptr[p..];
        case 'E' =>
          if s == ERANGE { return false, h; }
          h := h.(crypt := Crypt(true, if s == 0 then LEGACY_ENCRYPT else s));
          ptr := ptr[p..];
        case 'S' =>
          if s == ERANGE || p == 0 { return false, h; }
          if s != 0 { h := h.(speed := Speed(true, h.speed.spdIn, s)); }
          ptr := ptr[p..];
        case 'F' =>
        case '>' => return true, h;
        case _ => return false, h;
      }
    }
    return false, h;
  }

  // ----- the round trip -----

  lemma {:induction false} DigitsBefore(d: string, rest: string)
    requires AllDigits(d) && (rest == [] || !IsDigit(rest[0]))
    ensures DigitPrefix(d + rest) == d
  {
    if d == [] {
      assert d + rest == rest;
    } else {
      assert (d + rest)[1..] == d[1..] + rest;
      DigitsBefore(d[1..], rest);
    }
  }

  lemma NoBlanks(s: string)
    requires s != [] && s[0] !in " \t\n\r"
    ensures SkipBlanks(s) == s
  {
  }

  lemma FirstDigit(d: string)
    requires AllDigits(d) && d != []
    ensures IsDigit(d[0])
  {
  }

  /** A printed number is read back, up to the letter that follows it. */
  lemma NumberRead(i: int, rest: string)
    requires rest != [] && !IsDigit(rest[0])
    ensures StrToL(Signed(i) + rest) == (i, |Signed(i)|) && (Signed(i) + rest)[|Signed(i)|..] == rest
  {
    hide Dec, DigitPrefix, SkipBlanks, Undec, AllDigits;
    var n := if i < 0 then -i else i;
    var s, d := Signed(i) + rest, Dec(n);
    UndecDec(n);
    DigitsBefore(d, rest);
    FirstDigit(d);
    NoBlanks(s);
    if i < 0 {
      assert s[1..] == d + rest;
    }
  }

  /** The numbers that are sent are not the one that the parser takes for an error. */
  predicate Sendable(h: Host)
  {
    && (h.speed.shape ==> h.speed.spdIn != ERANGE)
    && (h.comp.zlib || h.comp.lzo ==> h.comp.level != ERANGE)
    && (h.crypt.encrypt ==> h.crypt.cipher != ERANGE)
  }

  // How the parser goes through the string, part by part, for a server with settings h.

  lemma ReadEncryption(h: Host, c: Host)
    ensures var r := Parse(Encryption(h), c);
      && (r.0 <==> h.crypt.encrypt ==> h.crypt.cipher != ERANGE)
      && (r.0 ==> r.1 == if h.crypt.encrypt then Encrypted(c, h.crypt.cipher) else c)
  {
    hide StrToL, Signed;
    if h.crypt.encrypt {
      NumberRead(h.crypt.cipher, ">");
      assert Encryption(h)[1..] == Signed(h.crypt.cipher) + ">";
    }
  }

  lemma ReadAlive(h: Host, c: Host)
    ensures Parse(Alive(h), c) == Parse(Encryption(h), if h.keepAlive then c.(keepAlive := true) else c)
    ensures Alive(h) != [] && !IsDigit(Alive(h)[0])
  {
    hide StrToL, Signed;
    if h.keepAlive { assert Alive(h)[1..] == Encryption(h); } else { assert Alive(h) == Encryption(h); }
  }

  lemma ReadLzo(h: Host, c: Host)
    ensures Lzo(h) != [] && !IsDigit(Lzo(h)[0])
    ensures h.comp.lzo && h.comp.level == ERANGE ==> !Parse(Lzo(h), c).0
    ensures !(h.comp.lzo && h.comp.level == ERANGE) ==>
      Parse(Lzo(h), c) == Parse(Alive(h), if h.comp.lzo then Lzoed(c, h.comp.level) else c)
  {
    hide StrToL, Signed, Alive;
    ReadAlive(h, c);
    if h.comp.lzo {
      NumberRead(h.comp.level, Alive(h));
      assert Lzo(h)[1..] == Signed(h.comp.level) + Alive(h);
    } else {
      assert Lzo(h) == Alive(h);
    }
  }

  lemma ReadZlib(h: Host, c: Host)
    ensures Zlib(h) != [] && !IsDigit(Zlib(h)[0])
    ensures h.comp.zlib && h.comp.level == ERANGE ==> !Parse(Zlib(h), c).0
    ensures !(h.comp.zlib && h.comp.level == ERANGE) ==>
      Parse(Zlib(h), c) == Parse(Lzo(h), if h.comp.zlib then Zipped(c, h.comp.level) else c)
  {
    hide StrToL, Signed, Lzo;
    ReadLzo(h, c);
    if h.comp.zlib {
      NumberRead(h.comp.level, Lzo(h));
      assert Zlib(h)[1..] == Signed(h.comp.level) + Lzo(h);
    } else {
      assert Zlib(h) == Lzo(h);
    }
  }

  lemma ReadShaping(h: Host, c: Host)
    ensures h.speed.shape && h.speed.spdIn == ERANGE ==> !Parse(Shaping(h), c).0
    ensures !(h.speed.shape && h.speed.spdIn == ERANGE) ==>
      Parse(Shaping(h), c) == Parse(Zlib(h), if h.speed.shape then Shaped(c, h.speed.spdIn) else c)
  {
    hide StrToL, Signed, Zlib;
    ReadZlib(h, c);
    if h.speed.shape {
      NumberRead(h.speed.spdIn, Zlib(h));
      assert Shaping(h)[1..] == Signed(h.speed.spdIn) + Zlib(h);
    } else {
      assert Shaping(h) == Zlib(h);
    }
  }

  /** What the client makes of protocol and type. */
  function Typed(c: Host, h: Host): Host
  {
    WithKind(c, TypedKind(c.kind, h))
  }

  function TypedKind(c: Kind, h: Host): Kind
  {
    var p :=
      if h.kind.tcp && !h.kind.udp then c.(tcp := true, udp := false)
      else if h.kind.udp && !h.kind.tcp then c.(tcp := false, udp := true)
      else c;
    if TunnelType(h) == "t" then p.(tty := true)
    else if TunnelType(h) == "p" then p.(pipe := true)
    else if TunnelType(h) == "e" then p.(ether := true)
    else if TunnelType(h) == "u" then p.(tun := true)
    else p
  }

  lemma ReadTyped(h: Host, c: Host)
    ensures Parse(Protocol(h) + (TunnelType(h) + Shaping(h)), c) == Parse(Shaping(h), Typed(c, h))
  {
    hide StrToL, Shaping;
    var rest := TunnelType(h) + Shaping(h);
    if Protocol(h) != "" {
      assert (Protocol(h) + rest)[1..] == rest;
    } else {
      assert Protocol(h) + rest == rest;
    }
    if TunnelType(h) != "" {
      assert rest[1..] == Shaping(h);
    } else {
      assert rest == Shaping(h);
    }
  }

  lemma {:induction false} BracketFound(before: string, rest: string)
    requires '<' !in before
    ensures AfterBracket(before + "<" + rest) == rest
  {
    var s := before + "<" + rest;
    if before == [] {
      assert s == "<" + rest;
    } else {
      assert s[1..] == before[1..] + "<" + rest;
      BracketFound(before[1..], rest);
    }
  }

  /** What the client makes of the whole string, given its own settings c. */
  function Merged(c: Host, h: Host): Host
  {
    var t := Typed(c, h);
    var s := if h.speed.shape then Shaped(t, h.speed.spdIn) else t;
    var z := if h.comp.zlib then Zipped(s, h.comp.level) else s;
    var l := if h.comp.lzo then Lzoed(z, h.comp.level) else z;
    var k := if h.keepAlive then l.(keepAlive := true) else l;
    if h.crypt.encrypt then Encrypted(k, h.crypt.cipher) else k
  }

  lemma ReadMerged(before: string, h: Host, c: Host)
    requires '<' !in before
    ensures var r := Read(before + FlagString(h), c);
      && (r.0 <==> Sendable(h))
      && (r.0 ==> r.1 == Merged(c, h))
  {
    hide Parse, Shaping, Zlib, Lzo, Alive, Encryption, Encrypted, Shaped, Typed, AfterBracket, Signed, Protocol,
         TunnelType;
    var body := Protocol(h) + (TunnelType(h) + Shaping(h));
    assert before + FlagString(h) == before + "<" + body;
    BracketFound(before, body);
    var t := Typed(c, h);
    var s := if h.speed.shape then Shaped(t, h.speed.spdIn) else t;
    var z := if h.comp.zlib then Zipped(s, h.comp.level) else s;
    var l := if h.comp.lzo then Lzoed(z, h.comp.level) else z;
    var k := if h.keepAlive then l.(keepAlive := true) else l;
    ReadTyped(h, c);
    ReadShaping(h, t);
    ReadZlib(h, s);
    ReadLzo(h, z);
    ReadAlive(h, l);
    ReadEncryption(h, k);
  }

  predicate OneProtocol(h: Host) { h.kind.tcp != h.kind.udp }

  predicate OneType(h: Host) { TunnelType(h) != "" }

  predicate SameType(h: Host, c: Host)
  {
    && h.kind.tty == c.kind.tty && h.kind.pipe == c.kind.pipe
    && h.kind.ether == c.kind.ether && h.kind.tun == c.kind.tun
  }

  /**
   The client accepts the flags exactly if none of the numbers sent is the value of ERANGE. It
   then has the server's protocol and type, keep-alive, compression and encryption as the
   server has them, and sends at the speed at which the server wants to receive.
   */
  lemma FlagsArrive(before: string, h: Host, c: Host)
    requires '<' !in before && OneProtocol(h) && OneType(h)
    ensures var (ok, r) := Read(before + FlagString(h), c);
      && (ok <==> Sendable(h))
      && (ok ==>
        && r.kind.tcp == h.kind.tcp && r.kind.udp == h.kind.udp
        && (SameType(c, h) || !(c.kind.tty || c.kind.pipe || c.kind.ether || c.kind.tun) ==> SameType(r, h))
        && r.keepAlive == (c.keepAlive || h.keepAlive)
        && r.comp.zlib == (c.comp.zlib || h.comp.zlib) && r.comp.lzo == (c.comp.lzo || h.comp.lzo)
        && r.comp.level == (if h.comp.zlib || h.comp.lzo then h.comp.level else c.comp.level)
        && r.crypt.encrypt == (c.crypt.encrypt || h.crypt.encrypt)
        && r.crypt.cipher == (if !h.crypt.encrypt then c.crypt.cipher
                              else if h.crypt.cipher == 0 then LEGACY_ENCRYPT else h.crypt.cipher)
        && r.speed.shape == (c.speed.shape || (h.speed.shape && h.speed.spdIn != 0))
        && r.speed.spdOut == (if h.speed.shape && h.speed.spdIn != 0 then h.speed.spdIn else c.speed.spdOut)
        && r.speed.spdIn == c.speed.spdIn)
  {
    hide Read, FlagString, Merged, TunnelType, OneType, SameType, Sendable;
    ReadMerged(before, h, c);
    MergedTyped(c, h);
    MergedNumbers(c, h);
  }

  lemma MergedTyped(c: Host, h: Host)
    requires OneProtocol(h) && OneType(h)
    ensures var r := Merged(c, h);
      && r.kind.tcp == h.kind.tcp && r.kind.udp == h.kind.udp
      && (SameType(c, h) || !(c.kind.tty || c.kind.pipe || c.kind.ether || c.kind.tun) ==> SameType(r, h))
  {
    hide TypedKind, TunnelType;
    TypedIs(c, h);
    assert Merged(c, h).kind == TypedKind(c.kind, h);
  }

  lemma TypedIs(c: Host, h: Host)
    requires OneProtocol(h) && OneType(h)
    ensures var t := Typed(c, h);
      && t.kind.tcp == h.kind.tcp && t.kind.udp == h.kind.udp
      && (SameType(c, h) || !(c.kind.tty || c.kind.pipe || c.kind.ether || c.kind.tun) ==> SameType(t, h))
  {
  }

  lemma MergedNumbers(c: Host, h: Host)
    ensures var r := Merged(c, h);
      && r.keepAlive == (c.keepAlive || h.keepAlive)
      && r.comp.zlib == (c.comp.zlib || h.comp.zlib) && r.comp.lzo == (c.comp.lzo || h.comp.lzo)
      && r.comp.level == (if h.comp.zlib || h.comp.lzo then h.comp.level else c.comp.level)
      && r.crypt.encrypt == (c.crypt.encrypt || h.crypt.encrypt)
      && r.crypt.cipher == (if !h.crypt.encrypt then c.crypt.cipher
                            else if h.crypt.cipher == 0 then LEGACY_ENCRYPT else h.crypt.cipher)
      && r.speed.shape == (c.speed.shape || (h.speed.shape && h.speed.spdIn != 0))
      && r.speed.spdOut == (if h.speed.shape && h.speed.spdIn != 0 then h.speed.spdIn else c.speed.spdOut)
      && r.speed.spdIn == c.speed.spdIn
  {
    hide TypedKind;
  }

  /** A server that limits the speed to 34, which the client takes for an error of strtol. */
  lemma SpeedRefused(before: string, c: Host)
    requires '<' !in before
    ensures var h := Host(Kind(true, false, false, false, false, true), false, Compression(false, false, 0),
                          Speed(true, ERANGE, 0), Crypt(false, 0));
      && FlagString(h) == "<TuS34>"
      && !Read(before + FlagString(h), c).0
  {
    var h := Host(Kind(true, false, false, false, false, true), false, Compression(false, false, 0),
                  Speed(true, ERANGE, 0), Crypt(false, 0));
    assert Signed(34) == "34" by { assert Dec(3) == "3"; }
    hide Read, Signed;
    ReadMerged(before, h, c);
  }
}
