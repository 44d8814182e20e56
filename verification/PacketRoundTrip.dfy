/**
 Building packets, and the proof that taking them apart gives back what was put in;
 relaying an OGM, and what survives any number of hops.
 */
module PacketRoundTrip {
  import opened Wrappers
  import opened Packet

  type ExtTy = t: int | 0 <= t <= EXT_TYPE_MAX

  /** An extension block: the two related bits, the type and everything behind the first byte. */
  datatype Ext = Ext(related: Bits2, ty: ExtTy, body: seq<Byte>)

  datatype Msg = Msg(ogm: Ogm, exts: seq<Ext>)

  /** A block of fixed size, or one whose second byte is its length in words. */
  ghost predicate WellFormedExt(e: Ext)
  {
    if IsTlv(e.ty) then |e.body| >= 1 && e.body[0] >= 1 && |e.body| + 1 == 4 * (e.body[0] as int)
    else |e.body| + 1 == EXT_LEN
  }

  /** Well-formed blocks in ascending type order, from type `from` on. */
  ghost predicate Ordered(exts: seq<Ext>, from: int)
  {
    exts != [] ==> WellFormedExt(exts[0]) && exts[0].ty >= from && Ordered(exts[1..], exts[0].ty)
  }

  lemma {:induction false} OrderedMeans(exts: seq<Ext>, from: int)
    ensures Ordered(exts, from) <==>
      && (forall i :: 0 <= i < |exts| ==> WellFormedExt(exts[i]) && exts[i].ty >= from)
      && (forall i, j :: 0 <= i < j < |exts| ==> exts[i].ty <= exts[j].ty)
  {
    if exts != [] {
      OrderedMeans(exts[1..], exts[0].ty);
      assert forall i :: 0 < i < |exts| ==> exts[i] == exts[1..][i - 1];
      assert forall i :: 0 <= i < |exts| - 1 ==> exts[1..][i] == exts[i + 1];
    }
  }

  ghost predicate WellFormed(m: Msg)
  {
    |m.ogm.orig| == 4 && Ordered(m.exts, 0) && MsgLen(m) <= 255 * 4
  }

  // ---------------------------------------------------------------------------
  // Writing

  function ExtBytes(e: Ext): seq<Byte> { [128 + 4 * e.ty + e.related] + e.body }

  function ExtsBytes(exts: seq<Ext>): seq<Byte>
  {
    if exts == [] then [] else ExtBytes(exts[0]) + ExtsBytes(exts[1..])
  }

  function MsgLen(m: Msg): nat { OGM_LEN + |ExtsBytes(m.exts)| }

  /** The fixed part: schedule_own_ogm and schedule_rcvd_ogm set bat_size from the
      whole length and put the sequence number into network order. */
  function OgmBytes(o: Ogm, len: nat): seq<Byte>
    requires len <= 255 * 4
  {
    [o.flags, len / 4, o.pws, o.misc, o.ttl, o.prevHop, o.seqno / 256, o.seqno % 256] + o.orig
  }

  function MsgBytes(m: Msg): seq<Byte>
    requires MsgLen(m) <= 255 * 4
  {
    OgmBytes(m.ogm, MsgLen(m)) + ExtsBytes(m.exts)
  }

  ghost predicate AllWellFormed(msgs: seq<Msg>)
  {
    msgs != [] ==> WellFormed(msgs[0]) && AllWellFormed(msgs[1..])
  }

  /** aggregation_out behind the packet header. */
  ghost function BodyBytes(msgs: seq<Msg>): seq<Byte>
    requires AllWellFormed(msgs)
  {
    if msgs == [] then [] else MsgBytes(msgs[0]) + BodyBytes(msgs[1..])
  }

  /** send_aggregated_ogms: version, link flags, a reserved byte, and the length in words. */
  ghost function PacketBytes(msgs: seq<Msg>, reserved: Byte): seq<Byte>
    requires AllWellFormed(msgs) && HEADER_LEN + |BodyBytes(msgs)| <= MAX_UDPD_SIZE
  {
    [COMPAT_VERSION, 0, reserved, (HEADER_LEN + |BodyBytes(msgs)|) / 4] + BodyBytes(msgs)
  }

  // ---------------------------------------------------------------------------
  // What the receiver should see

  function OfType(exts: seq<Ext>, ty: int): seq<Ext>
  {
    if exts == [] then [] else (if exts[0].ty == ty then [exts[0]] else []) + OfType(exts[1..], ty)
  }

  /** One section per type, from type `from` on: the bytes of the blocks of that type. */
  function SectionsOf(exts: seq<Ext>, from: nat): (r: seq<seq<Byte>>)
    requires from <= EXT_TYPE_MAX + 1
    ensures |r| == EXT_TYPE_MAX + 1 - from
    decreases EXT_TYPE_MAX + 1 - from
  {
    if from > EXT_TYPE_MAX then [] else [ExtsBytes(OfType(exts, from))] + SectionsOf(exts, from + 1)
  }

  function Delivered(m: Msg): Event { Deliver(m.ogm, SectionsOf(m.exts, 0)) }

  function AllDelivered(msgs: seq<Msg>): seq<Event>
  {
    if msgs == [] then [] else [Delivered(msgs[0])] + AllDelivered(msgs[1..])
  }

  // ---------------------------------------------------------------------------
  // Extensions

  /** Not the beginning of an extension block. */
  ghost predicate Boundary(s: seq<Byte>) { |s| % 4 == 0 && (s == [] || !ExtBit(s[0])) }

  /** The header of one block reads back. */
  lemma HeadBlock(e: Ext, tail: seq<Byte>)
    requires WellFormedExt(e)
    ensures var s, n := ExtBytes(e) + tail, |ExtBytes(e)|;
      && n % 4 == 0 && n >= 4 && ExtBit(s[0]) && ExtType(s[0]) == e.ty
      && BlockLen(s, e.ty) == n && Rest(s, n) == tail
  {
    var s := ExtBytes(e) + tail;
    assert s[0] == 128 + 4 * e.ty + e.related;
    assert IsTlv(e.ty) ==> s[1] == e.body[0];
    assert s[|ExtBytes(e)|..] == tail;
  }

  lemma {:induction false} ExtsAligned(exts: seq<Ext>, from: int)
    requires Ordered(exts, from)
    ensures |ExtsBytes(exts)| % 4 == 0
  {
    if exts != [] {
      ExtsAligned(exts[1..], exts[0].ty);
      HeadBlock(exts[0], []);
      Aligned(|ExtBytes(exts[0])|, |ExtsBytes(exts[1..])|);
    }
  }

  /** The blocks behind those of type `ty`. */
  function Above(exts: seq<Ext>, ty: int): seq<Ext>
  {
    if exts == [] || exts[0].ty != ty then exts else Above(exts[1..], ty)
  }

  lemma {:induction false} NoneOfType(exts: seq<Ext>, from: int, ty: int)
    requires Ordered(exts, from) && ty < from
    ensures OfType(exts, ty) == []
  {
    if exts != [] { NoneOfType(exts[1..], exts[0].ty, ty); }
  }

  /** Blocks in ascending order split into those of the lowest type and those above. */
  lemma {:induction false} SplitTypes(exts: seq<Ext>, ty: int)
    requires Ordered(exts, ty)
    ensures ExtsBytes(exts) == ExtsBytes(OfType(exts, ty)) + ExtsBytes(Above(exts, ty))
    ensures Ordered(Above(exts, ty), ty + 1)
    ensures forall t :: t > ty ==> OfType(exts, t) == OfType(Above(exts, ty), t)
  {
    if exts != [] {
      var e, rest := exts[0], exts[1..];
      if e.ty == ty {
        SplitTypes(rest, ty);
        var f := OfType(exts, ty);
        assert f == [e] + OfType(rest, ty) && f[1..] == OfType(rest, ty);
        assert ExtBytes(e) + (ExtsBytes(f[1..]) + ExtsBytes(Above(rest, ty)))
            == ExtBytes(e) + ExtsBytes(f[1..]) + ExtsBytes(Above(rest, ty));
        forall t | t > ty
          ensures OfType(exts, t) == OfType(rest, t)
        {
          assert [] + OfType(rest, t) == OfType(rest, t);
        }
      } else {
        assert Ordered(exts, e.ty);
        NoneOfType(exts, e.ty, ty);
      }
    }
  }

  /** The inner loop reads exactly the blocks of the lowest type. */
  lemma {:induction false} ScanReads(exts: seq<Ext>, ty: int, tail: seq<Byte>)
    requires Ordered(exts, ty) && Boundary(tail)
    ensures |ExtsBytes(exts) + tail| % 4 == 0
    ensures ScanType(ExtsBytes(exts) + tail, ty) == Length(|ExtsBytes(OfType(exts, ty))|)
  {
    hide ExtBytes;
    ExtsAligned(exts, ty);
    Aligned(|ExtsBytes(exts)|, |tail|);
    if exts == [] {
      assert [] + tail == tail;
    } else {
      var e, rest := exts[0], exts[1..];
      var s := ExtsBytes(exts) + tail;
      assert s == ExtBytes(e) + (ExtsBytes(rest) + tail);
      HeadBlock(e, ExtsBytes(rest) + tail);
      if e.ty == ty {
        ScanReads(rest, ty, tail);
        assert OfType(exts, ty) == [e] + OfType(rest, ty);
        assert ([e] + OfType(rest, ty))[1..] == OfType(rest, ty);
      } else {
        assert Ordered(exts, e.ty);
        NoneOfType(exts, e.ty, ty);
      }
    }
  }

  lemma {:induction false} NoSections(ty: nat)
    requires ty <= EXT_TYPE_MAX + 1
    ensures SectionsOf([], ty) == seq(EXT_TYPE_MAX + 1 - ty, _ => [])
    decreases EXT_TYPE_MAX + 1 - ty
  {
    if ty <= EXT_TYPE_MAX {
      NoSections(ty + 1);
      assert seq<seq<Byte>>(EXT_TYPE_MAX + 1 - ty, _ => []) == [[]]
          + seq<seq<Byte>>(EXT_TYPE_MAX + 1 - (ty + 1), _ => []);
    }
  }

  lemma {:induction false} SameSections(exts: seq<Ext>, exts': seq<Ext>, ty: nat)
    requires ty <= EXT_TYPE_MAX + 1 && forall t :: t >= ty ==> OfType(exts, t) == OfType(exts', t)
    ensures SectionsOf(exts, ty) == SectionsOf(exts', ty)
    decreases EXT_TYPE_MAX + 1 - ty
  {
    if ty <= EXT_TYPE_MAX { SameSections(exts, exts', ty + 1); }
  }

  /** The middle loop finds one section per type and reads all extensions of the OGM and no more. */
  lemma {:induction false} SectionsRead(exts: seq<Ext>, ty: nat, size: nat, done: nat, tail: seq<Byte>)
    requires ty <= EXT_TYPE_MAX + 1 && Ordered(exts, ty) && Boundary(tail)
    requires done + |ExtsBytes(exts)| < size
    ensures |ExtsBytes(exts) + tail| % 4 == 0
    ensures ReadSections(ExtsBytes(exts) + tail, size, done, ty)
      == Sections(done + |ExtsBytes(exts)|, SectionsOf(exts, ty))
    decreases EXT_TYPE_MAX + 1 - ty, 1
  {
    if exts == [] {
      assert ExtsBytes(exts) + tail == tail;
      ScanReads(exts, ty, tail);
      NoSections(ty);
    } else {
      FirstSection(exts, ty, size, done, tail);
    }
  }

  lemma FirstSection(exts: seq<Ext>, ty: nat, size: nat, done: nat, tail: seq<Byte>)
    requires exts != [] && ty <= EXT_TYPE_MAX + 1 && Ordered(exts, ty) && Boundary(tail)
    requires done + |ExtsBytes(exts)| < size
    ensures |ExtsBytes(exts) + tail| % 4 == 0
    ensures ReadSections(ExtsBytes(exts) + tail, size, done, ty)
      == Sections(done + |ExtsBytes(exts)|, SectionsOf(exts, ty))
    decreases EXT_TYPE_MAX + 1 - ty, 0
  {
    hide ScanType, ReadSections, Ordered, Above, OfType, ExtsBytes, SectionsOf, Boundary;
    ScanReads(exts, ty, tail);
    var s := ExtsBytes(exts) + tail;
    FirstBlock(exts, ty, tail);
    var section, above := ExtsBytes(OfType(exts, ty)), Above(exts, ty);
    SplitTypes(exts, ty);
    SplitSection(s, section, ExtsBytes(above), tail);
    assert |ExtsBytes(exts)| == |section| + |ExtsBytes(above)|;
    SectionsRead(above, ty + 1, size, done + |section|, tail);
    SameSections(exts, above, ty + 1);
    SectionsStep(exts, ty);
    ReadStep(s, size, done, ty);
  }

  lemma SectionsStep(exts: seq<Ext>, ty: nat)
    requires ty <= EXT_TYPE_MAX
    ensures SectionsOf(exts, ty) == [ExtsBytes(OfType(exts, ty))] + SectionsOf(exts, ty + 1)
  {
  }

  lemma FirstBlock(exts: seq<Ext>, ty: nat, tail: seq<Byte>)
    requires exts != [] && Ordered(exts, ty)
    ensures var s := ExtsBytes(exts) + tail; s != [] && ExtBit(s[0]) && ty <= EXT_TYPE_MAX
  {
    assert ExtsBytes(exts) + tail == ExtBytes(exts[0]) + (ExtsBytes(exts[1..]) + tail);
    HeadBlock(exts[0], ExtsBytes(exts[1..]) + tail);
  }

  lemma SplitSection(s: seq<Byte>, section: seq<Byte>, above: seq<Byte>, tail: seq<Byte>)
    requires s == section + above + tail
    ensures Front(s, |section|) == section && Rest(s, |section|) == above + tail
  {
  }

  // ---------------------------------------------------------------------------
  // Whole packets

  lemma HeadOgm(m: Msg, tail: seq<Byte>)
    requires WellFormed(m)
    ensures var s := MsgBytes(m) + tail;
      && |s| >= OGM_LEN && !ExtBit(s[0]) && BatType(s[0]) == 0
      && SizeOf(s) == MsgLen(m) == |MsgBytes(m)| && MsgLen(m) % 4 == 0
      && ParseOgm(s) == m.ogm && Rest(s, MsgLen(m)) == tail
      && s[OGM_LEN..] == ExtsBytes(m.exts) + tail
  {
    ExtsAligned(m.exts, 0);
    var s := MsgBytes(m) + tail;
    assert s[MsgLen(m)..] == tail;
    assert s[8..12] == m.ogm.orig;
    assert s[0] == m.ogm.flags && s[1] == MsgLen(m) / 4;
    assert 256 * (m.ogm.seqno / 256) + m.ogm.seqno % 256 == m.ogm.seqno;
  }

  lemma {:induction false} BodyReads(msgs: seq<Msg>)
    requires AllWellFormed(msgs)
    ensures Boundary(BodyBytes(msgs)) && Plausible(BodyBytes(msgs))
    ensures Strip(BodyBytes(msgs)) == Stripped(AllDelivered(msgs), AllDone)
  {
    if msgs != [] {
      BodyReads(msgs[1..]);
      MessageReads(msgs[0], BodyBytes(msgs[1..]));
    }
  }

  /** One message in front of what is plausible already. */
  lemma MessageReads(m: Msg, tail: seq<Byte>)
    requires WellFormed(m) && Boundary(tail) && Plausible(tail)
    ensures Boundary(MsgBytes(m) + tail) && Plausible(MsgBytes(m) + tail)
    ensures Strip(MsgBytes(m) + tail) == Prepend(Delivered(m), Strip(tail))
  {
    hide ReadSections, SectionsOf, MsgBytes, ParseOgm, BatType, ExtBit;
    var s := MsgBytes(m) + tail;
    HeadOgm(m, tail);
    Aligned(|MsgBytes(m)|, |tail|);
    SectionsRead(m.exts, 0, MsgLen(m), 0, tail);
    StripStep(s);
  }

  /** Taking apart undoes aggregation: whatever well-formed OGMs fit into one packet, the
      plausibility pass accepts it and strip_packet hands up exactly these OGMs, in
      order, each with exactly its extension blocks per type; padding is ignored. */
  lemma PacketRoundTrip(msgs: seq<Msg>, reserved: Byte, padding: seq<Byte>)
    requires msgs != [] && AllWellFormed(msgs) && HEADER_LEN + |BodyBytes(msgs)| <= MAX_UDPD_SIZE
    ensures Process(PacketBytes(msgs, reserved) + padding, false) == Some(Stripped(AllDelivered(msgs), AllDone))
  {
    hide Strip, Plausible, AllDelivered;
    BodyReads(msgs);
    HeadOgm(msgs[0], BodyBytes(msgs[1..]));
    var body := BodyBytes(msgs);
    assert |body| >= OGM_LEN;
    Aligned(HEADER_LEN, |body|);
  }

  // ---------------------------------------------------------------------------
  // Relaying

  /** The blocks a relay sends on: those marked to be kept, and those of networks, which
      the announcement plugin passes on itself. */
  predicate Relayed(t: int) { IsKeep(t) || t == EXT_TYPE_64B_HNA }

  function Kept(exts: seq<Ext>): seq<Ext>
  {
    if exts == [] then [] else (if Relayed(exts[0].ty) then [exts[0]] else []) + Kept(exts[1..])
  }

  /** schedule_rcvd_ogm: what is sent on for an OGM with these sections, section by section. */
  function RelaySections(sections: seq<seq<Byte>>, from: nat): seq<Byte>
    requires from <= EXT_TYPE_MAX + 1 && |sections| == EXT_TYPE_MAX + 1 - from
    decreases EXT_TYPE_MAX + 1 - from
  {
    if from > EXT_TYPE_MAX then []
    else (if Relayed(from) then sections[0] else []) + RelaySections(sections[1..], from + 1)
  }

  /** The header of the relayed OGM: one hop less, the sender's id for the previous hop, new flags. */
  function RelayOgm(o: Ogm, neighId: Byte, flags: Bits4): Ogm
    requires o.ttl > 0
  {
    o.(ttl := o.ttl - 1, prevHop := neighId, flags := flags)
  }

  /** The loop that copies the kept sections behind the header; `out` are the bytes
      behind the fixed part of the new OGM. */
  method CopySections(sections: seq<seq<Byte>>) returns (out: seq<Byte>)
    requires |sections| == EXT_TYPE_MAX + 1
    ensures out == RelaySections(sections, 0)
  {
    out := [];
    var i := 0;
    assert sections[0..] == sections;
    while i <= EXT_TYPE_MAX
      invariant 0 <= i <= EXT_TYPE_MAX + 1
      invariant RelaySections(sections, 0) == out + RelaySections(sections[i..], i)
    {
      hide RelaySections;
      CopyStep(sections, i, out);
      if Relayed(i) {
        out := out + sections[i];
      }
      i := i + 1;
    }
  }

  lemma CopyStep(sections: seq<seq<Byte>>, i: nat, out: seq<Byte>)
    requires i <= EXT_TYPE_MAX && |sections| == EXT_TYPE_MAX + 1
    ensures out + RelaySections(sections[i..], i)
      == (if Relayed(i) then out + sections[i] else out) + RelaySections(sections[i + 1..], i + 1)
  {
    var rest := RelaySections(sections[i + 1..], i + 1);
    assert sections[i..][1..] == sections[i + 1..];
    assert out + (sections[i] + rest) == out + sections[i] + rest && [] + rest == rest;
  }

  lemma {:induction false} KeptOrdered(exts: seq<Ext>, from: int)
    requires Ordered(exts, from)
    ensures Ordered(Kept(exts), from) && |ExtsBytes(Kept(exts))| <= |ExtsBytes(exts)|
  {
    if exts != [] {
      KeptOrdered(exts[1..], exts[0].ty);
      var k := Kept(exts[1..]);
      if Relayed(exts[0].ty) {
        assert ([exts[0]] + k)[1..] == k;
      } else {
        assert [] + k == k;
        if k != [] { assert k[0].ty >= from; }
      }
    }
  }

  lemma {:induction false} KeptOfType(exts: seq<Ext>, t: int)
    ensures OfType(Kept(exts), t) == if Relayed(t) then OfType(exts, t) else []
  {
    if exts != [] {
      KeptOfType(exts[1..], t);
      var k := Kept(exts[1..]);
      if Relayed(exts[0].ty) { assert ([exts[0]] + k)[1..] == k; } else { assert [] + k == k; }
    }
  }

  /** Copying sections is the same as keeping blocks. */
  lemma {:induction false} RelayIsKept(exts: seq<Ext>, from: nat)
    requires from <= EXT_TYPE_MAX + 1 && Ordered(exts, from)
    ensures RelaySections(SectionsOf(exts, from), from) == ExtsBytes(Kept(exts))
    decreases EXT_TYPE_MAX + 1 - from
  {
    if from > EXT_TYPE_MAX {
      assert exts == [];
    } else {
      SplitTypes(exts, from);
      var above := Above(exts, from);
      SameSections(exts, above, from + 1);
      RelayIsKept(above, from + 1);
      KeptAbove(exts, from);
    }
  }

  lemma {:induction false} KeptAbove(exts: seq<Ext>, ty: int)
    ensures Ordered(exts, ty) ==>
      ExtsBytes(Kept(exts))
      == (if Relayed(ty) then ExtsBytes(OfType(exts, ty)) else []) + ExtsBytes(Kept(Above(exts, ty)))
  {
    if exts != [] && Ordered(exts, ty) {
      var e, rest := exts[0], exts[1..];
      var k := Kept(rest);
      if e.ty == ty {
        KeptAbove(rest, ty);
        assert OfType(exts, ty) == [e] + OfType(rest, ty);
        assert ([e] + OfType(rest, ty))[1..] == OfType(rest, ty);
        if Relayed(ty) {
          assert ([e] + k)[1..] == k;
          assert ExtBytes(e) + (ExtsBytes(OfType(rest, ty)) + ExtsBytes(Kept(Above(rest, ty))))
              == ExtBytes(e) + ExtsBytes(OfType(rest, ty)) + ExtsBytes(Kept(Above(rest, ty)));
        } else {
          assert [] + k == k;
        }
      } else {
        assert Ordered(exts, e.ty);
        NoneOfType(exts, e.ty, ty);
      }
    }
  }

  /** One hop: the relay of a well-formed OGM is a well-formed OGM. */
  function Hop(m: Msg, neighId: Byte, flags: Bits4): Msg
    requires m.ogm.ttl > 0
  {
    Msg(RelayOgm(m.ogm, neighId, flags), Kept(m.exts))
  }

  /** What schedule_rcvd_ogm puts together from what strip_packet handed up is the
      well-formed message `Hop(m)`, byte for byte. */
  lemma RelayedBytes(m: Msg, neighId: Byte, flags: Bits4)
    requires WellFormed(m) && m.ogm.ttl > 0
    ensures WellFormed(Hop(m, neighId, flags))
    ensures var out := RelaySections(Delivered(m).sections, 0);
      && OGM_LEN + |out| <= 255 * 4
      && MsgBytes(Hop(m, neighId, flags)) == OgmBytes(RelayOgm(m.ogm, neighId, flags), OGM_LEN + |out|) + out
  {
    hide SectionsOf, RelaySections;
    KeptOrdered(m.exts, 0);
    RelayIsKept(m.exts, 0);
  }

  /** A relay: its id for the node it has the OGM from, and the flags it sets. */
  datatype Relay = Relay(neighId: Byte, flags: Bits4)

  /** Any number of hops, each through a relay of its own. */
  function Hops(m: Msg, relays: seq<Relay>): Msg
    requires m.ogm.ttl >= |relays|
    decreases |relays|
  {
    if relays == [] then m else Hops(Hop(m, relays[0].neighId, relays[0].flags), relays[1..])
  }

  /** The extensions a relay keeps, those of eight types and the announced networks, survive any
      number of hops byte for byte; the others are gone after the first. Of the header, each hop
      counts down the time to live and the last one has written its flags and the number of the
      previous hop; all else is as the originator sent it. */
  lemma {:induction false} SurviveHops(m: Msg, relays: seq<Relay>, t: nat)
    requires WellFormed(m) && m.ogm.ttl >= |relays| > 0 && t <= EXT_TYPE_MAX
    ensures WellFormed(Hops(m, relays)) && Hops(m, relays).ogm.ttl == m.ogm.ttl - |relays|
    ensures Delivered(Hops(m, relays)).sections[t]
         == if t in {0, 1, 3, 4, 6, 8, 10, 12, 14} then Delivered(m).sections[t] else []
    ensures var o, last := Hops(m, relays).ogm, relays[|relays| - 1];
      && o.prevHop == last.neighId && o.flags == last.flags
      && o.pws == m.ogm.pws && o.misc == m.ogm.misc && o.seqno == m.ogm.seqno && o.orig == m.ogm.orig
    decreases |relays|
  {
    hide SectionsOf, RelaySections, OfType, Kept;
    var h := Hop(m, relays[0].neighId, relays[0].flags);
    RelayedBytes(m, relays[0].neighId, relays[0].flags);
    KeptOfType(m.exts, t);
    SectionAt(m.exts, 0, t);
    SectionAt(h.exts, 0, t);
    if |relays| > 1 {
      SurviveHops(h, relays[1..], t);
    } else {
      assert Hops(m, relays) == h;
    }
  }

  lemma {:induction false} SectionAt(exts: seq<Ext>, from: nat, t: nat)
    requires from <= t <= EXT_TYPE_MAX
    ensures SectionsOf(exts, from)[t - from] == ExtsBytes(OfType(exts, t))
    decreases EXT_TYPE_MAX + 1 - from
  {
    hide ExtsBytes, OfType;
    if from < t { SectionAt(exts, from + 1, t); }
  }
}
