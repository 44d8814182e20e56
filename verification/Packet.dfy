/**
 The wire format of `schedule.c`: OGMs with typed extension blocks, aggregated
 behind a packet header, and the two passes that take a packet apart again.
 The functions describe what the loops compute on the bytes that are still to be
 read; the methods are the loops.
 */
module Packet {
  import opened Wrappers

  type Byte = b: int | 0 <= b < 256
  type Bits2 = b: int | 0 <= b < 4
  type Bits4 = b: int | 0 <= b < 16
  type Word16 = w: int | 0 <= w < 65536

  const COMPAT_VERSION: Byte := 10
  const HEADER_LEN := 4
  const OGM_LEN := 12
  const EXT_LEN := 8
  const EXT_TYPE_MAX := 15
  const EXT_TYPE_64B_HNA := 1
  const MAX_UDPD_SIZE := 1020

  /** ext_attribute[t] & EXT_ATTR_TLV */
  predicate IsTlv(t: int) { t in {6, 7, 10, 11, 14, 15} }

  /** ext_attribute[t] & EXT_ATTR_KEEP */
  predicate IsKeep(t: int) { t in {0, 3, 4, 6, 8, 10, 12, 14} }

  // ---------------------------------------------------------------------------
  // Reading

  predicate ExtBit(b: Byte) { b >= 128 }
  function ExtType(b: Byte): int { b / 4 % 32 }
  function BatType(b: Byte): int { b / 16 % 8 }

  datatype Ogm = Ogm(flags: Bits4, pws: Byte, misc: Byte, ttl: Byte, prevHop: Byte, seqno: Word16, orig: seq<Byte>)

  function ParseOgm(s: seq<Byte>): Ogm
    requires |s| >= OGM_LEN
  {
    Ogm(s[0] % 16, s[2], s[3], s[4], s[5], 256 * (s[6] as int) + s[7] as int, s[8..12])
  }

  /** What strip_packet hands up: an OGM with one (possibly empty) byte string of
      extensions per type, or a block of another type. */
  datatype Event = Deliver(ogm: Ogm, sections: seq<seq<Byte>>) | Other(block: seq<Byte>)

  /** How the pass ends: at the end of the data, at an extension out of order, or at
      an OGM whose size field disagrees with its extensions. Two ends are failures of
      the loops: an extension of length zero is never left, and the remaining length
      of an OGM that starts less than twelve bytes before the end wraps around. */
  datatype End = AllDone | WrongOrder | WrongSize | Endless | PastEnd

  datatype Stripped = Stripped(events: seq<Event>, end: End)

  datatype Scan = Length(n: nat) | OutOfOrder | NoProgress

  /** The bytes that a block says it occupies, from its size field. */
  function SizeOf(s: seq<Byte>): (n: nat)
    requires |s| >= 2
    ensures n % 4 == 0
  {
    4 * (s[1] as int)
  }

  /** The bytes that belong to the extension block at the front of `s`. */
  function BlockLen(s: seq<Byte>, ty: int): (n: nat)
    requires |s| >= 4
    ensures n % 4 == 0
  {
    if IsTlv(ty) then SizeOf(s) else EXT_LEN
  }

  function Rest(s: seq<Byte>, n: nat): (r: seq<Byte>)
    ensures |s| % 4 == 0 && n % 4 == 0 ==> |r| % 4 == 0
    ensures |r| <= |s| && (n > 0 && s != [] ==> |r| < |s|)
  {
    if n <= |s| then s[n..] else []
  }

  function Front(s: seq<Byte>, n: nat): seq<Byte> { if n <= |s| then s[..n] else s }

  /** The inner loop: the length of the blocks of type `ty` at the front of `s`. */
  function ScanType(s: seq<Byte>, ty: int): (r: Scan)
    requires |s| % 4 == 0
    ensures r.Length? ==> r.n % 4 == 0
    decreases |s|
  {
    if s == [] || !ExtBit(s[0]) then Length(0)
    else if ExtType(s[0]) > ty then Length(0)
    else if ExtType(s[0]) < ty then OutOfOrder
    else
      var n := BlockLen(s, ty);
      if n == 0 then NoProgress
      else
        match ScanType(Rest(s, n), ty)
        case Length(m) => Length(n + m)
        case other => other
  }

  datatype Sections = Sections(done: nat, parts: seq<seq<Byte>>) | BadOrder | Stuck

  /** The middle loop, from type `ty` on; `done` bytes of extensions have been read. */
  function ReadSections(s: seq<Byte>, size: nat, done: nat, ty: nat): (r: Sections)
    requires |s| % 4 == 0 && ty <= EXT_TYPE_MAX + 1
    ensures r.Sections? ==> |r.parts| == EXT_TYPE_MAX + 1 - ty && done <= r.done
    decreases EXT_TYPE_MAX + 1 - ty
  {
    if s == [] || done >= size || !ExtBit(s[0]) || ty > EXT_TYPE_MAX then
      Sections(done, seq(EXT_TYPE_MAX + 1 - ty, _ => []))
    else
      match ScanType(s, ty)
      case OutOfOrder => BadOrder
      case NoProgress => Stuck
      case Length(n) =>
        match ReadSections(Rest(s, n), size, done + n, ty + 1)
        case Sections(d, parts) => Sections(d, [Front(s, n)] + parts)
        case other => other
  }

  /** The plausibility pass of process_packet. */
  predicate Plausible(s: seq<Byte>)
    decreases |s|
  {
    if s == [] then true
    else if |s| < 4 || ExtBit(s[0]) || SizeOf(s) == 0 || SizeOf(s) > |s| then false
    else Plausible(Rest(s, SizeOf(s)))
  }

  /** strip_packet. */
  function Strip(s: seq<Byte>): Stripped
    requires Plausible(s) && |s| % 4 == 0
    decreases |s|
  {
    if s == [] then Stripped([], AllDone)
    else if BatType(s[0]) == 0 then
      if |s| < OGM_LEN then Stripped([], PastEnd)
      else
        match ReadSections(s[OGM_LEN..], SizeOf(s), 0, 0)
        case BadOrder => Stripped([], WrongOrder)
        case Stuck => Stripped([], Endless)
        case Sections(done, parts) =>
          if OGM_LEN + done != SizeOf(s) then Stripped([], WrongSize)
          else Prepend(Deliver(ParseOgm(s), parts), Strip(Rest(s, SizeOf(s))))
    else Prepend(Other(s[..SizeOf(s)]), Strip(Rest(s, SizeOf(s))))
  }

  function Prepend(e: Event, r: Stripped): Stripped { Stripped([e] + r.events, r.end) }

  /** process_packet: nothing, or what strip_packet does with the blocks. */
  function Process(b: seq<Byte>, own: bool): Option<Stripped>
  {
    if |b| < HEADER_LEN + 4 || own then None
    else if 4 * (b[3] as int) < HEADER_LEN + 4 || b[0] != COMPAT_VERSION || 4 * (b[3] as int) > |b| then None
    else if !Plausible(b[HEADER_LEN..4 * (b[3] as int)]) then None
    else Some(Strip(b[HEADER_LEN..4 * (b[3] as int)]))
  }

  // ---------------------------------------------------------------------------
  // The loops

  lemma Aligned(a: int, b: int)
    requires a % 4 == 0 && b % 4 == 0
    ensures (a + b) % 4 == 0 && (a - b) % 4 == 0
  {
  }

  lemma RestOfRest(s: seq<Byte>, m: nat, n: nat)
    ensures Rest(Rest(s, m), n) == Rest(s, m + n)
  {
  }

  /** One turn of the inner loop, `at` bytes into the extensions. */
  lemma ScanNext(s: seq<Byte>, at: nat, ty: int)
    requires |s| % 4 == 0 && at % 4 == 0
    ensures var r := Rest(s, at);
      if r == [] || !ExtBit(r[0]) || ExtType(r[0]) > ty then ScanType(r, ty) == Length(0)
      else if ExtType(r[0]) < ty then ScanType(r, ty) == OutOfOrder
      else if BlockLen(r, ty) == 0 then ScanType(r, ty) == NoProgress
      else ScanType(r, ty) == match ScanType(Rest(s, at + BlockLen(r, ty)), ty)
                              case Length(m) => Length(BlockLen(r, ty) + m)
                              case other => other
  {
    if Rest(s, at) != [] && ExtType(Rest(s, at)[0]) == ty { RestOfRest(s, at, BlockLen(Rest(s, at), ty)); }
  }

  /** The inner loop of strip_packet; `left` bytes follow, of which `done` have been read. */
  method ScanBlocks(buf: seq<Byte>, extAt: nat, done: nat, left: nat, ty: nat) returns (r: Scan)
    requires done <= left && extAt + (left - done) <= |buf| && (left - done) % 4 == 0
    ensures r == ScanType(buf[extAt..extAt + (left - done)], ty)
  {
    hide ScanType;
    ghost var s := buf[extAt..extAt + (left - done)];
    var extLen := 0;
    assert Rest(s, 0) == s;
    while extLen + done < left && ExtBit(buf[extAt + extLen])
      invariant extLen % 4 == 0
      invariant ScanType(s, ty) == match ScanType(Rest(s, extLen), ty)
                                   case Length(m) => Length(extLen + m)
                                   case other => other
      decreases left - done - extLen
    {
      var p := extAt + extLen;
      ghost var r := Rest(s, extLen);
      Aligned(|s|, extLen);
      ScanNext(s, extLen, ty);
      assert r[0] == buf[p] && r[1] == buf[p + 1];
      if ExtType(buf[p]) == ty {
        var n := if IsTlv(ty) then 4 * (buf[p + 1] as int) else EXT_LEN;
        assert n == BlockLen(r, ty);
        if n == 0 {
          // the C loop never leaves this block
          return NoProgress;
        }
        extLen := extLen + n;
      } else if ExtType(buf[p]) > ty {
        break;
      } else {
        return OutOfOrder;
      }
    }
    ScanNext(s, extLen, ty);
    return Length(extLen);
  }

  const NO_SECTIONS: seq<seq<Byte>> := seq(EXT_TYPE_MAX + 1, _ => [])

  /** `tail` continues what has been collected in `parts` for the types below `ty`. */
  function Continue(parts: seq<seq<Byte>>, ty: nat, tail: Sections): Sections
    requires ty <= |parts|
  {
    match tail
    case Sections(d, ps) => Sections(d, parts[..ty] + ps)
    case other => other
  }

  lemma ContinueStep(parts: seq<seq<Byte>>, ty: nat, part: seq<Byte>, r: Sections)
    requires ty < |parts|
    ensures Continue(parts[ty := part], ty + 1, r) ==
      Continue(parts, ty, match r case Sections(d, ps) => Sections(d, [part] + ps) case other => other)
  {
    assert parts[ty := part][..ty + 1] == parts[..ty] + [part];
    if r.Sections? {
      assert parts[..ty] + [part] + r.parts == parts[..ty] + ([part] + r.parts);
    }
  }

  /** The middle loop stands at type `ty`, with `done` bytes of `s` read. */
  ghost predicate Standing(s: seq<Byte>, size: nat, parts: seq<seq<Byte>>, ty: nat, done: nat)
  {
    && |s| % 4 == 0 && done % 4 == 0 && ty <= EXT_TYPE_MAX + 1 == |parts|
    && (forall t :: ty <= t <= EXT_TYPE_MAX ==> parts[t] == [])
    && ReadSections(s, size, 0, 0) == Continue(parts, ty, ReadSections(Rest(s, done), size, done, ty))
  }

  lemma StandingStart(s: seq<Byte>, size: nat)
    requires |s| % 4 == 0
    ensures Standing(s, size, NO_SECTIONS, 0, 0)
  {
    assert Rest(s, 0) == s;
    var r := ReadSections(s, size, 0, 0);
    if r.Sections? { assert NO_SECTIONS[..0] + r.parts == r.parts; }
  }

  lemma StandingStep(s: seq<Byte>, size: nat, parts: seq<seq<Byte>>, ty: nat, done: nat)
    requires Standing(s, size, parts, ty, done)
    requires done < |s| && done < size && ExtBit(s[done]) && ty <= EXT_TYPE_MAX
    ensures match ScanType(Rest(s, done), ty)
            case Length(n) => Standing(s, size, parts[ty := Front(Rest(s, done), n)], ty + 1, done + n)
            case OutOfOrder => ReadSections(s, size, 0, 0) == BadOrder
            case NoProgress => ReadSections(s, size, 0, 0) == Stuck
  {
    hide ScanType, Rest, ReadSections;
    Aligned(|s|, done);
    assert Rest(s, done) != [] && Rest(s, done)[0] == s[done] by { RestAt(s, done); }
    ReadStep(Rest(s, done), size, done, ty);
    match ScanType(Rest(s, done), ty)
    case Length(n) =>
      Aligned(done, n);
      RestOfRest(s, done, n);
      ContinueStep(parts, ty, Front(Rest(s, done), n), ReadSections(Rest(s, done + n), size, done + n, ty + 1));
    case _ =>
  }

  lemma RestAt(s: seq<Byte>, n: nat)
    requires n < |s|
    ensures Rest(s, n) != [] && Rest(s, n)[0] == s[n]
  {
  }

  /** One unfolding of ReadSections. */
  lemma ReadStep(s: seq<Byte>, size: nat, done: nat, ty: nat)
    requires |s| % 4 == 0 && s != [] && done < size && ExtBit(s[0]) && ty <= EXT_TYPE_MAX
    ensures ReadSections(s, size, done, ty) ==
      match ScanType(s, ty)
      case OutOfOrder => BadOrder
      case NoProgress => Stuck
      case Length(n) =>
        match ReadSections(Rest(s, n), size, done + n, ty + 1)
        case Sections(d, ps) => Sections(d, [Front(s, n)] + ps)
        case other => other
  {
  }

  lemma StandingEnd(s: seq<Byte>, size: nat, parts: seq<seq<Byte>>, ty: nat, done: nat)
    requires Standing(s, size, parts, ty, done)
    requires done >= |s| || done >= size || !ExtBit(s[done]) || ty > EXT_TYPE_MAX
    ensures ReadSections(s, size, 0, 0) == Sections(done, parts)
  {
    assert parts == parts[..ty] + seq(EXT_TYPE_MAX + 1 - ty, _ => []);
    assert Rest(s, done) != [] ==> Rest(s, done)[0] == s[done];
  }

  /** The middle loop of strip_packet: one section per extension type. */
  method ReadExtensions(buf: seq<Byte>, start: nat, left: nat, size: nat) returns (r: Sections)
    requires start + left <= |buf| && left % 4 == 0
    ensures r == ReadSections(buf[start..start + left], size, 0, 0)
  {
    hide ScanType, ReadSections, Standing;
    ghost var s := buf[start..start + left];
    var done, parts := 0, NO_SECTIONS;
    var extType := 0;
    StandingStart(s, size);
    while done < left && done < size && ExtBit(buf[start + done]) && extType <= EXT_TYPE_MAX
      invariant extType <= EXT_TYPE_MAX + 1 == |parts| && done % 4 == 0
      invariant Standing(s, size, parts, extType, done)
    {
      Aligned(left, done);
      StandingStep(s, size, parts, extType, done);
      assert Rest(s, done) == buf[start + done..start + done + (left - done)];
      var scan := ScanBlocks(buf, start + done, done, left, extType);
      match scan
      case OutOfOrder => return BadOrder;
      case NoProgress => return Stuck;
      case Length(extLen) =>
        var stop := if done + extLen <= left then done + extLen else left;
        FrontIs(buf, start, left, done, extLen);
        parts := parts[extType := buf[start + done..start + stop]];
        done := done + extLen;
        extType := extType + 1;
    }
    StandingEnd(s, size, parts, extType, done);
    return Sections(done, parts);
  }

  lemma FrontIs(buf: seq<Byte>, start: nat, left: nat, done: nat, n: nat)
    requires start + left <= |buf| && done <= left
    ensures var stop := if done + n <= left then done + n else left;
      buf[start + done..start + stop] == Front(Rest(buf[start..start + left], done), n)
  {
    assert Rest(buf[start..start + left], done) == buf[start + done..start + left];
  }

  function After(events: seq<Event>, r: Stripped): Stripped { Stripped(events + r.events, r.end) }

  lemma AfterStep(events: seq<Event>, e: Event, r: Stripped)
    ensures After(events + [e], r) == After(events, Prepend(e, r))
  {
    assert events + [e] + r.events == events + ([e] + r.events);
  }

  /** One unfolding of Plausible. */
  lemma PlausibleNext(s: seq<Byte>)
    ensures s == [] ==> Plausible(s)
    ensures s != [] ==>
      (Plausible(s) <==> |s| >= 4 && !ExtBit(s[0]) && 0 < SizeOf(s) <= |s| && Plausible(Rest(s, SizeOf(s))))
  {
  }

  lemma PlausibleHead(s: seq<Byte>)
    requires Plausible(s) && s != []
    ensures |s| >= 4 && 0 < SizeOf(s) <= |s| && Plausible(Rest(s, SizeOf(s)))
  {
  }

  /** One unfolding of Strip. */
  lemma StripStep(s: seq<Byte>)
    requires Plausible(s) && |s| % 4 == 0
    requires |s| >= 4 && 0 < SizeOf(s) <= |s| && Plausible(Rest(s, SizeOf(s)))
    ensures BatType(s[0]) != 0 ==> Strip(s) == Prepend(Other(s[..SizeOf(s)]), Strip(Rest(s, SizeOf(s))))
    ensures BatType(s[0]) == 0 && |s| < OGM_LEN ==> Strip(s) == Stripped([], PastEnd)
    ensures BatType(s[0]) == 0 && |s| >= OGM_LEN ==>
      Strip(s) == match ReadSections(s[OGM_LEN..], SizeOf(s), 0, 0)
                  case BadOrder => Stripped([], WrongOrder)
                  case Stuck => Stripped([], Endless)
                  case Sections(done, parts) =>
                    if OGM_LEN + done != SizeOf(s) then Stripped([], WrongSize)
                    else Prepend(Deliver(ParseOgm(s), parts), Strip(Rest(s, SizeOf(s))))
  {
  }

  /** strip_packet, on a buffer that has passed the plausibility pass. */
  method StripPacket(buf: seq<Byte>, pos0: nat, len: nat) returns (r: Stripped)
    requires pos0 + len <= |buf| && len % 4 == 0 && Plausible(buf[pos0..pos0 + len])
    ensures r == Strip(buf[pos0..pos0 + len])
  {
    hide ReadSections, Strip, Plausible, Rest;
    ghost var s := buf[pos0..pos0 + len];
    var pos, left := pos0, len;
    var events: seq<Event> := [];
    while left >= 4 && left >= 4 * (buf[pos + 1] as int)
      invariant 0 <= pos && 0 <= left && pos + left == pos0 + len && left % 4 == 0
      invariant Plausible(buf[pos..pos + left])
      invariant Strip(s) == After(events, Strip(buf[pos..pos + left]))
      decreases left
    {
      ghost var cur := buf[pos..pos + left];
      var size := 4 * (buf[pos + 1] as int);
      HeadOf(buf, pos, left);
      PlausibleHead(cur);
      StripStep(cur);
      Slices(buf, pos, left, size);
      var e: Event;
      if BatType(buf[pos]) == 0 {
        if left < OGM_LEN {
          // the C code goes on with a remaining length that has wrapped around
          return Stripped(events, PastEnd);
        }
        var sections := ReadExtensions(buf, pos + OGM_LEN, left - OGM_LEN, size);
        match sections {
          case BadOrder => return Stripped(events, WrongOrder);
          case Stuck => return Stripped(events, Endless);
          case Sections(done, parts) =>
            if OGM_LEN + done != size {
              return Stripped(events, WrongSize);
            }
            e := Deliver(ParseOgm(buf[pos..pos + left]), parts);
        }
      } else {
        e := Other(buf[pos..pos + size]);
      }
      AfterStep(events, e, Strip(Rest(cur, size)));
      Aligned(left, size);
      events := events + [e];
      left := left - size;
      pos := pos + size;
    }
    StripEnd(buf[pos..pos + left]);
    return Stripped(events, AllDone);
  }

  lemma HeadOf(buf: seq<Byte>, pos: nat, len: nat)
    requires pos + len <= |buf| && len >= 4
    ensures var cur := buf[pos..pos + len];
      |cur| == len && cur[0] == buf[pos] && SizeOf(cur) == 4 * (buf[pos + 1] as int)
  {
  }

  lemma Slices(buf: seq<Byte>, pos: nat, len: nat, size: nat)
    requires pos + len <= |buf| && size <= len
    ensures var cur := buf[pos..pos + len];
      && Rest(cur, size) == buf[pos + size..pos + size + (len - size)] && cur[..size] == buf[pos..pos + size]
      && (len >= OGM_LEN ==> cur[OGM_LEN..] == buf[pos + OGM_LEN..pos + OGM_LEN + (len - OGM_LEN)])
  {
  }

  lemma StripEnd(s: seq<Byte>)
    requires Plausible(s) && |s| % 4 == 0 && (|s| < 4 || |s| < SizeOf(s))
    ensures Strip(s) == Stripped([], AllDone)
  {
  }

  /** process_packet: the header checks, the plausibility pass, then strip_packet. */
  method ProcessPacket(buf: seq<Byte>, own: bool) returns (r: Option<Stripped>)
    ensures r == Process(buf, own)
  {
    hide Plausible, Strip;
    if |buf| < HEADER_LEN + 4 || own {
      return None;
    }
    var size := 4 * (buf[3] as int);
    if size < HEADER_LEN + 4 || buf[0] != COMPAT_VERSION || size > |buf| {
      return None;
    }
    var plausible := CheckPlausible(buf, size);
    if !plausible {
      return None;
    }
    var stripped := StripPacket(buf, HEADER_LEN, size - HEADER_LEN);
    return Some(stripped);
  }

  /** The plausibility pass of process_packet over the blocks behind the header. */
  method CheckPlausible(buf: seq<Byte>, size: nat) returns (ok: bool)
    requires HEADER_LEN <= size <= |buf| && size % 4 == 0
    ensures ok == Plausible(buf[HEADER_LEN..size])
  {
    hide Plausible, Rest;
    var checkLen, checkDone, checkPos := size - HEADER_LEN, 0, HEADER_LEN;
    ghost var s := buf[HEADER_LEN..size];
    while checkDone < checkLen
      invariant 0 <= checkDone <= checkLen && checkDone % 4 == 0 && checkPos == HEADER_LEN + checkDone
      invariant Plausible(s) == Plausible(buf[checkPos..size])
    {
      ghost var cur := buf[checkPos..size];
      Aligned(size, checkPos);
      PlausibleNext(cur);
      assert cur[0] == buf[checkPos] && cur[1] == buf[checkPos + 1];
      var n := 4 * (buf[checkPos + 1] as int);
      if ExtBit(buf[checkPos]) || buf[checkPos + 1] == 0 || n > checkLen - checkDone {
        return false;
      }
      assert Rest(cur, n) == buf[checkPos + n..size] by { Slices(buf, checkPos, size - checkPos, n); }
      Aligned(checkDone, n);
      checkDone := checkDone + n;
      checkPos := checkPos + n;
    }
    assert buf[checkPos..size] == [];
    PlausibleNext([]);
    return checkLen == checkDone;
  }
}
