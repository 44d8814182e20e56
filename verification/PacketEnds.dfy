/**
 When strip_packet fails on a packet that the plausibility pass has accepted
 (compiled-tools/bmx/bmxd/schedule.c:826-971 and 1040-1094), told by one pass over its bytes.
 */
module PacketEnds {
  import opened Wrappers
  import opened Packet

  /** One pass over the extensions: it meets a block of length zero, or one out of order, or ends after n bytes. */
  datatype Walk = Zero | Disorder | Ends(n: nat)

  /** `last` is the type of the block before, -1 at the beginning. */
  function WalkExts(s: seq<Byte>, size: nat, done: nat, last: int): Walk
    requires |s| % 4 == 0
    decreases |s|
  {
    if s == [] || !ExtBit(s[0]) then Ends(done)
    else
      var t := ExtType(s[0]);
      if t < last then Disorder
      else if t > EXT_TYPE_MAX || (t > last && done >= size) then Ends(done)
      else
        var n := BlockLen(s, t);
        if n == 0 then Zero else WalkExts(Rest(s, n), size, done + n, t)
  }

  function WalkOf(r: Sections): Walk
  {
    match r
    case Sections(d, _) => Ends(d)
    case BadOrder => Disorder
    case Stuck => Zero
  }

  predicate FirstFrom(s: seq<Byte>, ty: int) { s != [] && ExtBit(s[0]) ==> ExtType(s[0]) >= ty }

  lemma WalkNext(s: seq<Byte>, size: nat, done: nat, last: int)
    requires |s| % 4 == 0
    ensures s == [] || !ExtBit(s[0]) ==> WalkExts(s, size, done, last) == Ends(done)
    ensures s != [] && ExtBit(s[0]) && ExtType(s[0]) < last ==> WalkExts(s, size, done, last) == Disorder
    ensures s != [] && ExtBit(s[0]) && ExtType(s[0]) == last <= EXT_TYPE_MAX ==>
      WalkExts(s, size, done, last) ==
        var n := BlockLen(s, last);
        if n == 0 then Zero else WalkExts(Rest(s, n), size, done + n, last)
  {
  }

  lemma NoRest(s: seq<Byte>)
    ensures Rest(s, 0) == s
  {
  }

  lemma {:induction false} ScanWalks(s: seq<Byte>, size: nat, done: nat, ty: int)
    requires |s| % 4 == 0 && 0 <= ty <= EXT_TYPE_MAX
    ensures match ScanType(s, ty)
            case NoProgress => WalkExts(s, size, done, ty) == Zero
            case OutOfOrder => WalkExts(s, size, done, ty) == Disorder
            case Length(n) =>
              && FirstFrom(Rest(s, n), ty + 1)
              && WalkExts(s, size, done, ty) == WalkExts(Rest(s, n), size, done + n, ty)
    decreases |s|
  {
    hide ScanType, WalkExts, Rest;
    NoRest(s);
    ScanNext(s, 0, ty);
    WalkNext(s, size, done, ty);
    if s != [] && ExtBit(s[0]) && ExtType(s[0]) == ty && BlockLen(s, ty) > 0 {
      var n := BlockLen(s, ty);
      ScanWalks(Rest(s, n), size, done + n, ty);
      match ScanType(Rest(s, n), ty)
      case Length(m) => RestOfRest(s, n, m);
      case _ =>
    }
  }

  lemma RoundBegins(s: seq<Byte>, size: nat, done: nat, ty: nat)
    requires |s| % 4 == 0 && ty <= EXT_TYPE_MAX + 1 && FirstFrom(s, ty)
    ensures s == [] || done >= size || !ExtBit(s[0]) || ty > EXT_TYPE_MAX ==>
      ReadSections(s, size, done, ty).Sections? && ReadSections(s, size, done, ty).done == done
        && WalkExts(s, size, done, ty - 1) == Ends(done)
    ensures done < size && ty <= EXT_TYPE_MAX ==> WalkExts(s, size, done, ty - 1) == WalkExts(s, size, done, ty)
  {
    hide ScanType;
  }

  /** The one pass ends as the two nested loops do. */
  lemma {:induction false} WalkDecides(s: seq<Byte>, size: nat, done: nat, ty: nat)
    requires |s| % 4 == 0 && ty <= EXT_TYPE_MAX + 1 && FirstFrom(s, ty)
    ensures WalkOf(ReadSections(s, size, done, ty)) == WalkExts(s, size, done, ty - 1)
    decreases EXT_TYPE_MAX + 1 - ty
  {
    hide ReadSections, WalkExts, ScanType, Rest;
    RoundBegins(s, size, done, ty);
    if s != [] && done < size && ExtBit(s[0]) && ty <= EXT_TYPE_MAX {
      ReadStep(s, size, done, ty);
      ScanWalks(s, size, done, ty);
      match ScanType(s, ty)
      case Length(n) => WalkDecides(Rest(s, n), size, done + n, ty + 1);
      case _ =>
    }
  }

  /** Position k is where a block starts. */
  predicate Starts(s: seq<Byte>, k: nat)
    decreases k
  {
    k == 0 || (|s| >= 4 && 0 < SizeOf(s) <= k && Starts(Rest(s, SizeOf(s)), k - SizeOf(s)))
  }

  /** The walk over the extensions of the OGM at the front of s. */
  function OgmWalk(s: seq<Byte>): Walk
    requires |s| >= OGM_LEN && |s| % 4 == 0
  {
    WalkExts(s[OGM_LEN..], SizeOf(s), 0, -1)
  }

  /** The pass goes on behind the block at the front of s. */
  predicate Sound(s: seq<Byte>)
    requires |s| >= 4 && |s| % 4 == 0
  {
    BatType(s[0]) == 0 ==> |s| >= OGM_LEN && OgmWalk(s).Ends? && OGM_LEN + OgmWalk(s).n == SizeOf(s)
  }

  /** An OGM less than twelve bytes before the end. */
  predicate TooShort(s: seq<Byte>)
    requires |s| >= 4
  {
    BatType(s[0]) == 0 && |s| < OGM_LEN
  }

  /** An OGM with an extension of length zero in its way. */
  predicate HasZero(s: seq<Byte>)
    requires |s| >= 4 && |s| % 4 == 0
  {
    BatType(s[0]) == 0 && |s| >= OGM_LEN && OgmWalk(s) == Zero
  }

  /** Block by block as long as they are sound, one comes to an OGM that is too short. */
  predicate ComesToShort(s: seq<Byte>)
    requires |s| % 4 == 0
    decreases |s|
  {
    && |s| >= 4 && 0 < SizeOf(s) <= |s|
    && (TooShort(s) || (Sound(s) && ComesToShort(Rest(s, SizeOf(s)))))
  }

  /** Block by block as long as they are sound, one comes to an OGM with a length of zero. */
  predicate ComesToZero(s: seq<Byte>)
    requires |s| % 4 == 0
    decreases |s|
  {
    && |s| >= 4 && 0 < SizeOf(s) <= |s|
    && (HasZero(s) || (Sound(s) && ComesToZero(Rest(s, SizeOf(s)))))
  }

  /** How the pass goes on at the front of s, told by the walk. */
  lemma StripByWalk(s: seq<Byte>)
    requires Plausible(s) && |s| % 4 == 0 && s != []
    ensures |s| >= 4 && 0 < SizeOf(s) <= |s| && Plausible(Rest(s, SizeOf(s)))
    ensures TooShort(s) ==> Strip(s).end == PastEnd
    ensures HasZero(s) ==> Strip(s).end == Endless
    ensures Sound(s) ==> Strip(s).end == Strip(Rest(s, SizeOf(s))).end
    ensures !TooShort(s) && !HasZero(s) && !Sound(s) ==> Strip(s).end in {WrongOrder, WrongSize}
  {
    hide ReadSections, WalkExts, Strip, Plausible;
    PlausibleHead(s);
    StripStep(s);
    if |s| >= OGM_LEN { WalkFromStart(s); }
  }

  lemma WalkFromStart(s: seq<Byte>)
    requires |s| >= OGM_LEN && |s| % 4 == 0
    ensures WalkOf(ReadSections(s[OGM_LEN..], SizeOf(s), 0, 0)) == OgmWalk(s)
  {
    hide ReadSections, WalkExts;
    assert FirstFrom(s[OGM_LEN..], 0);
    WalkDecides(s[OGM_LEN..], SizeOf(s), 0, 0);
  }

  /** Where blocks start behind the first one. */
  lemma StartsNext(s: seq<Byte>, k: nat)
    requires |s| % 4 == 0 && |s| >= 4 && 0 < SizeOf(s) <= |s|
    ensures Starts(s, 0)
    ensures k > 0 ==> (Starts(s, k) <==> k >= SizeOf(s) && Starts(Rest(s, SizeOf(s)), k - SizeOf(s)))
    ensures SizeOf(s) <= k <= |s| ==> s[k..] == Rest(s, SizeOf(s))[k - SizeOf(s)..]
  {
  }

  /**
   When strip_packet fails on a packet that process_packet has found plausible: it reads past
   the end exactly if it comes to an OGM that begins less than twelve bytes before the end,
   and it never ends exactly if it comes to an OGM in whose extensions the walk meets a
   length of zero. It goes on from one block to the next exactly as long as they are sound.
   */
  lemma {:induction false} FailsExactly(s: seq<Byte>)
    requires Plausible(s) && |s| % 4 == 0
    ensures Strip(s).end == PastEnd <==> ComesToShort(s)
    ensures Strip(s).end == Endless <==> ComesToZero(s)
    decreases |s|
  {
    hide Plausible, Strip, Sound, HasZero, TooShort;
    if s == [] {
      StripEnd(s);
    } else {
      StripByWalk(s);
      OneOf(s);
      FailsExactly(Rest(s, SizeOf(s)));
    }
  }

  lemma OneOf(s: seq<Byte>)
    requires |s| >= 4 && |s| % 4 == 0
    ensures !(TooShort(s) && HasZero(s)) && !(TooShort(s) && Sound(s)) && !(HasZero(s) && Sound(s))
  {
  }

  /** An OGM that starts at k has at least three words, and no length of zero in its extensions. */
  predicate SafeAt(s: seq<Byte>, k: nat)
    requires k + 4 <= |s|
  {
    BatType(s[k]) == 0 ==> s[k + 1] >= 3 && (|s[k..]| >= OGM_LEN && |s[k..]| % 4 == 0 ==> OgmWalk(s[k..]) != Zero)
  }

  ghost predicate Safe(s: seq<Byte>) { forall k: nat :: k + 4 <= |s| && Starts(s, k) ==> SafeAt(s, k) }

  /** If all OGMs are safe, neither failure happens. */
  lemma {:induction false} SafeNeverFails(s: seq<Byte>)
    requires Plausible(s) && |s| % 4 == 0 && Safe(s)
    ensures Strip(s).end !in {Endless, PastEnd}
    decreases |s|
  {
    hide Plausible, Strip, Safe;
    if s == [] {
      StripEnd(s);
    } else {
      PlausibleHead(s);
      StripByWalk(s);
      SafeHead(s);
      SafeRest(s);
      SafeNeverFails(Rest(s, SizeOf(s)));
    }
  }

  lemma SafeHead(s: seq<Byte>)
    requires |s| % 4 == 0 && |s| >= 4 && 0 < SizeOf(s) <= |s| && Safe(s)
    ensures !TooShort(s) && !HasZero(s)
  {
    hide OgmWalk;
    assert Starts(s, 0) && SafeAt(s, 0);
    assert s[0..] == s;
  }

  lemma SafeRest(s: seq<Byte>)
    requires |s| % 4 == 0 && |s| >= 4 && 0 < SizeOf(s) <= |s| && Safe(s)
    ensures Safe(Rest(s, SizeOf(s)))
  {
    hide OgmWalk, SafeAt, Starts;
    var n, r := SizeOf(s), Rest(s, SizeOf(s));
    forall k: nat | k + 4 <= |r| && Starts(r, k) ensures SafeAt(r, k) {
      StartsNext(s, n + k);
      assert SafeAt(s, n + k);
      SafeShift(s, n, k);
    }
  }

  lemma SafeShift(s: seq<Byte>, n: nat, k: nat)
    requires n + k + 4 <= |s| && SafeAt(s, n + k)
    ensures SafeAt(s[n..], k)
  {
    hide OgmWalk;
    assert s[n..][k..] == s[n + k..];
  }

  /** An OGM of 16 bytes whose one extension is of type 6 and has length 0. */
  const ZERO_EXTENSION: seq<Byte> := [0, 4, 20, 0, 1, 0, 0, 1, 10, 0, 0, 1, 152, 0, 0, 0]

  /** A packet that is accepted and in which strip_packet does not come to an end. */
  lemma EndlessPacket()
    ensures Process([COMPAT_VERSION, 0, 0, 5] + ZERO_EXTENSION, false) == Some(Stripped([], Endless))
  {
    hide WalkExts, ReadSections, Strip, Plausible;
    ZeroExtension();
    WalkFromStart(ZERO_EXTENSION);
    StripStep(ZERO_EXTENSION);
    Accepted([COMPAT_VERSION, 0, 0, 5], ZERO_EXTENSION);
  }

  lemma ZeroExtension()
    ensures var s := ZERO_EXTENSION;
      |s| == 16 && SizeOf(s) == 16 && Rest(s, 16) == [] && Plausible(s) && BatType(s[0]) == 0 && OgmWalk(s) == Zero
  {
    assert ZERO_EXTENSION[OGM_LEN..] == [152, 0, 0, 0];
  }

  /** What process_packet does with a packet that is as long as its header says. */
  lemma Accepted(head: seq<Byte>, s: seq<Byte>)
    requires |head| == HEADER_LEN && head[0] == COMPAT_VERSION && 4 * (head[3] as int) == HEADER_LEN + |s|
    requires |s| >= 4 && Plausible(s)
    ensures Process(head + s, false) == Some(Strip(s))
  {
    hide Plausible, Strip, Process;
    var b := head + s;
    assert |b| == HEADER_LEN + |s| && b[HEADER_LEN..|b|] == s;
    ProcessIs(b, s);
  }

  lemma ProcessIs(b: seq<Byte>, s: seq<Byte>)
    requires |b| >= 8 && b[0] == COMPAT_VERSION && 4 * (b[3] as int) == |b|
    requires s == b[HEADER_LEN..|b|] && Plausible(s)
    ensures Process(b, false) == Some(Strip(s))
  {
    hide Plausible, Strip;
  }

  /** An OGM of one word at the end of a packet, which is accepted, and strip_packet reads past the end. */
  lemma PastEndPacket()
    ensures Process([COMPAT_VERSION, 0, 0, 2] + [0, 1, 20, 0], false) == Some(Stripped([], PastEnd))
  {
    var s: seq<Byte> := [0, 1, 20, 0];
    assert Rest(s, 4) == [];
    assert Plausible(s);
    StripStep(s);
    hide Plausible, Strip;
    Accepted([COMPAT_VERSION, 0, 0, 2], s);
  }

  // ----- what is accepted -----

  /** The block at k is no extension, has a size, and ends within the data. */
  predicate Proper(s: seq<Byte>, k: nat)
  {
    k + 4 <= |s| && s[k] < 128 && s[k + 1] > 0 && k + 4 * (s[k + 1] as int) <= |s|
  }

  ghost predicate AllProper(s: seq<Byte>) { forall k: nat :: k < |s| && Starts(s, k) ==> Proper(s, k) }

  /** The plausibility pass accepts data if and only if every block that it comes to is a proper one. */
  lemma {:induction false} PlausibleExactly(s: seq<Byte>)
    requires |s| % 4 == 0
    ensures Plausible(s) <==> AllProper(s)
    decreases |s|
  {
    if s != [] {
      assert Starts(s, 0);
      if Proper(s, 0) {
        var n := SizeOf(s);
        assert s[n..] == Rest(s, n);
        PlausibleExactly(Rest(s, n));
        ProperRest(s, n);
      }
    }
  }

  lemma ProperRest(s: seq<Byte>, n: nat)
    requires |s| % 4 == 0 && |s| >= 4 && n == SizeOf(s) && 0 < n <= |s| && Proper(s, 0)
    ensures AllProper(s) <==> AllProper(Rest(s, n))
  {
    var r := Rest(s, n);
    assert r == s[n..];
    hide Starts, Rest;
    if AllProper(s) {
      forall k: nat | k < |r| && Starts(r, k) ensures Proper(r, k) {
        StartsNext(s, n + k);
        assert Proper(s, n + k);
      }
    }
    if AllProper(r) {
      forall k: nat | k < |s| && Starts(s, k) ensures Proper(s, k) {
        if k > 0 {
          StartsNext(s, k);
          assert Proper(r, k - n);
        }
      }
    }
  }

  /**
   process_packet takes a packet apart if and only if it is not the node's own, has the version,
   holds what its header says, at least one block, and every block that one comes to is proper.
   */
  lemma AcceptedExactly(b: seq<Byte>, own: bool)
    ensures Process(b, own).Some? <==>
      && !own && |b| >= 8 && b[0] == 10 && b[3] >= 2 && 4 * (b[3] as int) <= |b|
      && AllProper(b[4..4 * (b[3] as int)])
    ensures Process(b, own).Some? ==>
      && |b| >= 4 && 4 <= 4 * (b[3] as int) <= |b| && Plausible(b[4..4 * (b[3] as int)])
      && Process(b, own).value == Strip(b[4..4 * (b[3] as int)])
  {
    if |b| >= 8 && 8 <= 4 * (b[3] as int) <= |b| { PlausibleExactly(b[4..4 * (b[3] as int)]); }
    hide Plausible, AllProper, Strip;
  }
}
