/** The STUN wire format octet by octet, in the numbers of RFC 5389 (sections 6 and 15) and RFC 8445 (section 16.1). */
module StunLayout {
  import opened Bytes
  import opened StunGrammar
  import opened StunMessage
  import StunWriter
  import Crc32

  // ---- numbers ----------------------------------------------------------------------------------

  /** Big-endian: the high octet comes first. */
  lemma BigEndian2(a: byte, b: byte)
    ensures Get2([a, b], 0) == 256 * (a as int) + b as int && Put2(256 * (a as int) + b as int) == [a, b]
  {
    Get2Determines([a, b], 256 * (a as int) + b as int);
  }

  lemma BigEndian4(a: byte, b: byte, c: byte, d: byte)
    ensures Get4([a, b, c, d], 0)
         == 0x100_0000 * (a as bv32) + 0x1_0000 * (b as bv32) + 0x100 * (c as bv32) + (d as bv32)
    ensures Put4(Get4([a, b, c, d], 0)) == [a, b, c, d]
  {
    hide Put4;
    Get4Determines([a, b, c, d]);
  }

  lemma BigEndian8(hi: bv32, lo: bv32)
    ensures Put8(0x1_0000_0000 * (hi as bv64) + (lo as bv64)) == Put4(hi) + Put4(lo)
  {
    hide Put4;
    assert ((0x1_0000_0000 * (hi as bv64) + (lo as bv64)) >> 32) & 0xFFFF_FFFF == hi as bv64;
    assert (0x1_0000_0000 * (hi as bv64) + (lo as bv64)) & 0xFFFF_FFFF == lo as bv64;
  }

  /** The message types of Binding. */
  lemma BindingTypes()
    ensures TypeField(Request, 1) == 0x0001 && TypeField(Indication, 1) == 0x0011
    ensures TypeField(SuccessResponse, 1) == 0x0101 && TypeField(ErrorResponse, 1) == 0x0111
    ensures High(0x0111) == 0x01 && Low(0x0111) == 0x11
  {
  }

  // ---- the address ------------------------------------------------------------------------------

  lemma MappedOctets4(port: seq<byte>, ip: seq<byte>, tid: seq<byte>)
    requires |port| == 2 && |ip| == 4 && |tid| == 12
    ensures Mapped(V4(port, ip), tid) == [0, 1, port[0] ^ 0x21, port[1] ^ 0x12,
                                          ip[0] ^ 0x21, ip[1] ^ 0x12, ip[2] ^ 0xA4, ip[3] ^ 0x42]
  {
  }

  lemma MappedOctets6(port: seq<byte>, ip: seq<byte>, tid: seq<byte>, i: nat)
    requires |port| == 2 && |ip| == 16 && |tid| == 12 && i < 16
    ensures var v := Mapped(V6(port, ip), tid);
            && v[..4] == [0, 2, port[0] ^ 0x21, port[1] ^ 0x12]
            && v[4 + i] == ip[i] ^ (if i < 4 then [0x21, 0x12, 0xA4, 0x42][i] else tid[i - 4])
  {
  }

  // ---- the whole message ------------------------------------------------------------------------

  /** A part of the message that may be missing. */
  function Part(present: bool, head: seq<byte>, value: seq<byte>): seq<byte> {
    if present then head + value else []
  }

  /** One more slot, with padding ... */
  lemma SlotOctets(slots: seq<Slot>, k: nat, head: seq<byte>)
    requires k < |slots|
    requires slots[k].used ==> Put2(slots[k].attr.typ) + Put2(|slots[k].attr.value|) == head
    ensures Wire(Keep(slots[..k + 1]))
         == Wire(Keep(slots[..k])) + Part(slots[k].used, head, slots[k].attr.value + slots[k].attr.pad)
  {
    hide Wire, Keep, Put2;
    KeepSnoc(slots, k);
    var a, w := slots[k].attr, Wire(Keep(slots[..k]));
    if slots[k].used {
      WireSnoc(Keep(slots[..k]), a);
      assert (Put2(a.typ) + Put2(|a.value|)) + a.value + a.pad == head + (a.value + a.pad);
    } else {
      assert Keep(slots[..k]) + [] == Keep(slots[..k]) && w + [] == w;
    }
  }

  /** ... and without. */
  lemma BareSlot(slots: seq<Slot>, k: nat, head: seq<byte>)
    requires k < |slots| && slots[k].attr.pad == []
    requires slots[k].used ==> Put2(slots[k].attr.typ) + Put2(|slots[k].attr.value|) == head
    ensures Wire(Keep(slots[..k + 1])) == Wire(Keep(slots[..k])) + Part(slots[k].used, head, slots[k].attr.value)
  {
    hide Wire, Keep, Put2;
    var v := slots[k].attr.value;
    SlotOctets(slots, k, head);
    assert v + [] == v;
  }

  /** Type and length of an attribute. */
  function Tag(t0: byte, t1: byte, n0: byte, n1: byte): seq<byte> {
    [t0, t1, n0, n1]
  }

  function UsernameTag(n: nat): seq<byte>
    requires n < 0x10000
  {
    [0x00, 0x06] + Put2(n)
  }

  lemma TagIs(t: int, n: int, t0: byte, t1: byte, n0: byte, n1: byte)
    requires t == 256 * (t0 as int) + t1 as int && n == 256 * (n0 as int) + n1 as int
    ensures 0 <= t < 0x10000 && 0 <= n < 0x10000 && Put2(t) + Put2(n) == Tag(t0, t1, n0, n1)
  {
    hide Put2, Tag;
    BigEndian2(t0, t1);
    BigEndian2(n0, n1);
    TwoPairs(t0, t1, n0, n1);
  }

  lemma TwoPairs(a: byte, b: byte, c: byte, d: byte)
    ensures [a, b] + [c, d] == Tag(a, b, c, d)
  {
  }

  lemma LeadTags(n: nat)
    requires n < 0x10000
    ensures Put2(USERNAME) + Put2(n) == UsernameTag(n)
    ensures Put2(PRIORITY) + Put2(4) == Tag(0x00, 0x24, 0, 4) && Put2(USE_CANDIDATE) + Put2(0) == Tag(0x00, 0x25, 0, 0)
    ensures Put2(ICE_CONTROLLING) + Put2(8) == Tag(0x80, 0x2A, 0, 8)
    ensures Put2(ICE_CONTROLLED) + Put2(8) == Tag(0x80, 0x29, 0, 8)
  {
    BigEndian2(0x00, 0x06);
    hide Put2, Tag;
    TagIs(PRIORITY, 4, 0x00, 0x24, 0, 4);
    TagIs(USE_CANDIDATE, 0, 0x00, 0x25, 0, 0);
    TagIs(ICE_CONTROLLING, 8, 0x80, 0x2A, 0, 8);
    TagIs(ICE_CONTROLLED, 8, 0x80, 0x29, 0, 8);
  }

  lemma TailTags()
    ensures Put2(XOR_MAPPED_ADDRESS) + Put2(8) == Tag(0x00, 0x20, 0, 8)
    ensures Put2(XOR_MAPPED_ADDRESS) + Put2(20) == Tag(0x00, 0x20, 0, 20)
    ensures Put2(ERROR_CODE) + Put2(4) == Tag(0x00, 0x09, 0, 4)
    ensures Put2(MESSAGE_INTEGRITY) + Put2(20) == Tag(0x00, 0x08, 0, 20)
    ensures Put2(FINGERPRINT) + Put2(4) == Tag(0x80, 0x28, 0, 4)
  {
    hide Put2, Tag;
    TagIs(XOR_MAPPED_ADDRESS, 8, 0x00, 0x20, 0, 8);
    TagIs(XOR_MAPPED_ADDRESS, 20, 0x00, 0x20, 0, 20);
    TagIs(ERROR_CODE, 4, 0x00, 0x09, 0, 4);
    TagIs(MESSAGE_INTEGRITY, 20, 0x00, 0x08, 0, 20);
    TagIs(FINGERPRINT, 4, 0x80, 0x28, 0, 4);
  }

  /** The attributes the application chose, in the order they are written. */
  function LeadOctets(o: Outgoing, pad: seq<byte>): seq<byte>
    requires o.Valid()
  {
    Part(o.fields.username != [], UsernameTag(|o.fields.username|), o.fields.username + pad)
    + Part(o.fields.priority != 0, Tag(0x00, 0x24, 0, 4), Put4(o.fields.priority))
    + Part(o.fields.iceControlling != 0, Tag(0x80, 0x2A, 0, 8), Put8(o.fields.iceControlling))
    + Part(o.fields.iceControlled != 0, Tag(0x80, 0x29, 0, 8), Put8(o.fields.iceControlled))
    + Part(o.fields.useCandidate, Tag(0x00, 0x25, 0, 0), [])
  }

  function AddressOctets(o: Outgoing): seq<byte>
    requires o.Valid()
  {
    if o.address.None? || o.address.value.OtherFamily? || o.msgMethod != 1 || o.klass != SuccessResponse then []
    else (if o.address.value.V4? then Tag(0x00, 0x20, 0, 8) else Tag(0x00, 0x20, 0, 20))
         + Mapped(o.address.value, o.tid)
  }

  function ErrorCodeOctets(o: Outgoing): seq<byte>
    requires o.Valid()
  {
    Part(o.fields.errorCode != 0 && o.klass == ErrorResponse, Tag(0x00, 0x09, 0, 4), ErrorValue(o.fields.errorCode))
  }

  lemma LeadSlots(o: Outgoing, pad: seq<byte>)
    requires o.Valid() && PadFits(o, pad)
    ensures var s, f := Slots(o, pad), o.fields;
            && s[0] == Slot(f.username != [], Attr(USERNAME, f.username, pad))
            && s[1] == Slot(f.priority != 0, Attr(PRIORITY, Put4(f.priority), []))
            && s[2] == Slot(f.iceControlling != 0, Attr(ICE_CONTROLLING, Put8(f.iceControlling), []))
            && s[3] == Slot(f.iceControlled != 0, Attr(ICE_CONTROLLED, Put8(f.iceControlled), []))
            && s[4] == Slot(f.useCandidate, Attr(USE_CANDIDATE, [], []))
  {
    hide Put4, Put8, ErrorValue, Mapped;
  }

  lemma FirstParts(o: Outgoing, pad: seq<byte>)
    requires o.Valid() && PadFits(o, pad)
    ensures Wire(Keep(Slots(o, pad)[..3]))
         == Part(o.fields.username != [], UsernameTag(|o.fields.username|), o.fields.username + pad)
            + Part(o.fields.priority != 0, Tag(0x00, 0x24, 0, 4), Put4(o.fields.priority))
            + Part(o.fields.iceControlling != 0, Tag(0x80, 0x2A, 0, 8), Put8(o.fields.iceControlling))
  {
    hide Wire, Keep, Put2, Put4, Put8, Slots, Part, Tag, UsernameTag;
    var slots, u := Slots(o, pad), o.fields.username;
    LeadSlots(o, pad);
    LeadTags(|u|);
    FirstSlot(slots, Part(u != [], UsernameTag(|u|), u + pad));
    BareSlot(slots, 1, Tag(0x00, 0x24, 0, 4));
    BareSlot(slots, 2, Tag(0x80, 0x2A, 0, 8));
  }

  lemma LeadLayout(o: Outgoing, pad: seq<byte>)
    requires o.Valid() && PadFits(o, pad)
    ensures Wire(Keep(Slots(o, pad)[..5])) == LeadOctets(o, pad)
  {
    hide Wire, Keep, Put2, Put4, Put8, Slots, Part, Tag, UsernameTag;
    var slots := Slots(o, pad);
    LeadSlots(o, pad);
    LeadTags(|o.fields.username|);
    FirstParts(o, pad);
    BareSlot(slots, 3, Tag(0x80, 0x29, 0, 8));
    BareSlot(slots, 4, Tag(0x00, 0x25, 0, 0));
  }

  lemma FirstSlot(slots: seq<Slot>, part: seq<byte>)
    requires slots != []
    requires var a := slots[0].attr; part == Part(slots[0].used, Put2(a.typ) + Put2(|a.value|), a.value + a.pad)
    ensures Wire(Keep(slots[..1])) == part
  {
    hide Wire, Keep, Put2, Part;
    SlotOctets(slots, 0, Put2(slots[0].attr.typ) + Put2(|slots[0].attr.value|));
    assert slots[..0] == [] && [] + part == part;
    StunWriter.NothingKept();
  }

  lemma BodyLayout(o: Outgoing, pad: seq<byte>)
    requires o.Valid() && PadFits(o, pad)
    ensures Body(o, pad) == LeadOctets(o, pad) + AddressOctets(o) + ErrorCodeOctets(o)
  {
    hide Wire, Keep, Put2, Put4, Put8, ErrorValue, Mapped, LeadOctets, Tag;
    var slots := Slots(o, pad);
    LeadLayout(o, pad);
    TailTags();
    BareSlot(slots, 5, if o.HasAddress() && o.address.value.V6? then Tag(0x00, 0x20, 0, 20) else Tag(0x00, 0x20, 0, 8));
    BareSlot(slots, 6, Tag(0x00, 0x09, 0, 4));
    assert slots[..7] == slots;
  }

  /** The header with its length field. */
  function HeaderOctets(o: Outgoing, n: int): seq<byte>
    requires o.Valid() && 0 <= n < 0x10000
  {
    var t := TypeField(o.klass, o.msgMethod);
    [High(t), Low(t)] + Put2(n) + [0x21, 0x12, 0xA4, 0x42] + o.tid
  }

  lemma HeaderIs(o: Outgoing, n: int)
    requires o.Valid() && 0 <= n < 0x10000
    ensures Header(o, n) == HeaderOctets(o, n)
  {
    hide High, Low, TypeField, Put2;
  }

  /** The digest, unless the message is an error response or has no password. */
  function IntegrityOctets(o: Outgoing, pad: seq<byte>, hmac: Hmac): seq<byte>
    requires o.Valid() && PadFits(o, pad)
  {
    Part(o.klass != ErrorResponse && o.password != [], Tag(0x00, 0x08, 0, 20), hmac(o.password, Signed(o, pad)))
  }

  /** Every serialised message: header, attributes in this order and with these numbers, FINGERPRINT last. */
  lemma MessageLayout(o: Outgoing, pad: seq<byte>, hmac: Hmac)
    requires o.Valid() && PadFits(o, pad)
    ensures var s := MessageBytes(o, pad, hmac);
            && |s| == Size(o, pad) < 0x10000
            && s[..|s| - 8] == HeaderOctets(o, |s| - 20) + (LeadOctets(o, pad) + AddressOctets(o) + ErrorCodeOctets(o))
                               + IntegrityOctets(o, pad, hmac)
            && s[|s| - 8..] == Tag(0x80, 0x28, 0, 4) + Put4(Crc32.Xor(Crc32.Crc(s[..|s| - 8]), 0x5354_554E))
  {
    hide *;
    LastOctets(o, pad, hmac);
    CoveredOctets(o, pad, hmac);
  }

  lemma CoveredOctets(o: Outgoing, pad: seq<byte>, hmac: Hmac)
    requires o.Valid() && PadFits(o, pad)
    ensures Covered(o, pad, hmac)
         == HeaderOctets(o, Size(o, pad) - 20) + (LeadOctets(o, pad) + AddressOctets(o) + ErrorCodeOctets(o))
            + IntegrityOctets(o, pad, hmac)
  {
    hide HeaderOctets, LeadOctets, AddressOctets, ErrorCodeOctets, Tag, Header, Body, Covered, Size, Signed, Attr.Wire,
         IntegrityAttr;
    CoveredParts(o, pad, hmac);
    HeaderIs(o, Size(o, pad) - 20);
    BodyLayout(o, pad);
    DigestOctets(o, pad, hmac);
    var b := HeaderOctets(o, Size(o, pad) - 20) + (LeadOctets(o, pad) + AddressOctets(o) + ErrorCodeOctets(o));
    assert b + [] == b;
  }

  lemma DigestOctets(o: Outgoing, pad: seq<byte>, hmac: Hmac)
    requires o.Valid() && PadFits(o, pad)
    ensures IntegrityAttr(o, pad, hmac).Wire() == Tag(0x00, 0x08, 0, 20) + hmac(o.password, Signed(o, pad))
  {
    hide Put2, Tag, Signed;
    TailTags();
    var d := hmac(o.password, Signed(o, pad));
    assert Tag(0x00, 0x08, 0, 20) + d + [] == Tag(0x00, 0x08, 0, 20) + d;
  }

  lemma LastOctets(o: Outgoing, pad: seq<byte>, hmac: Hmac)
    requires o.Valid() && PadFits(o, pad)
    ensures var s := MessageBytes(o, pad, hmac);
            && |s| == Size(o, pad) < 0x10000 && s[..|s| - 8] == Covered(o, pad, hmac)
            && s[|s| - 8..] == Tag(0x80, 0x28, 0, 4) + Put4(Crc32.Xor(Crc32.Crc(s[..|s| - 8]), 0x5354_554E))
  {
    hide Put2, Put4, Tag, Size, Covered, Crc32.Xor, Crc32.Crc;
    TailTags();
    var s, c := MessageBytes(o, pad, hmac), Covered(o, pad, hmac);
    var w := Tag(0x80, 0x28, 0, 4) + Put4(Crc32.Xor(Crc32.Crc(c), 0x5354_554E));
    assert w + [] == w;
    assert s == c + w && |w| == 8;
    assert s[..|s| - 8] == c;
  }

  // ---- the grammar ------------------------------------------------------------------------------

  /** The length an attribute of a known type must have. */
  predicate LengthInNumbers(t: int, n: nat) {
    && (t == 0x0008 ==> n == 20) && (t == 0x0009 ==> n >= 4) && (t == 0x0024 ==> n == 4) && (t == 0x0025 ==> n == 0)
    && (t == 0x8028 ==> n == 4) && (t == 0x8029 ==> n == 8) && (t == 0x802A ==> n == 8)
  }

  /** The messages that are accepted, in numbers. */
  lemma GrammarInNumbers(s: seq<byte>, xs: seq<Attribute>)
    ensures IsMessage(s, xs)
       <==> && |s| >= 20 && |s| % 4 == 0 && s[0] <= 2 && 256 * (s[2] as int) + s[3] as int == |s| - 20
            && s[4] == 0x21 && s[5] == 0x12 && s[6] == 0xA4 && s[7] == 0x42 && s[20..] == Wire(xs)
            && (forall i :: 0 <= i < |xs| ==> LengthInNumbers(xs[i].typ, |xs[i].value|))
            && (forall i :: 0 <= i < |xs| - 1 ==> xs[i].typ != 0x8028)
            && (forall i, j :: 0 <= i < j < |xs| && xs[i].typ == 0x0008 ==> xs[j].typ == 0x8028)
            && (xs != [] && xs[|xs| - 1].typ == 0x8028 ==>
                  |s| >= 28 && s[|s| - 4..] == Put4(Crc32.Xor(Crc32.Crc(s[..|s| - 8]), 0x5354_554E)))
  {
    hide Wire, FingerprintOk, Crc32.Xor, Crc32.Crc, Put4, LengthOk, LengthInNumbers, Get2;
    CookieOctets(s);
    LengthsAgree(xs);
    if |s| >= 20 && s[20..] == Wire(xs) && Rules(xs) {
      FingerprintInNumbers(s, xs);
    }
  }

  lemma CookieOctets(s: seq<byte>)
    ensures HeaderOk(s)
       <==> && |s| >= 20 && |s| % 4 == 0 && s[0] <= 2 && 256 * (s[2] as int) + s[3] as int == |s| - 20
            && s[4] == 0x21 && s[5] == 0x12 && s[6] == 0xA4 && s[7] == 0x42
  {
    if |s| >= 20 {
      assert s[4..8] == [s[4], s[5], s[6], s[7]];
    }
  }

  lemma LengthsAgree(xs: seq<Attribute>)
    ensures forall i :: 0 <= i < |xs| ==> (LengthOk(xs[i]) <==> LengthInNumbers(xs[i].typ, |xs[i].value|))
  {
  }

  lemma FingerprintInNumbers(s: seq<byte>, xs: seq<Attribute>)
    requires |s| >= 20 && s[20..] == Wire(xs) && Rules(xs)
    ensures FingerprintOk(s, xs)
       <==> (xs != [] && xs[|xs| - 1].typ == 0x8028 ==>
               |s| >= 28 && s[|s| - 4..] == Put4(Crc32.Xor(Crc32.Crc(s[..|s| - 8]), 0x5354_554E)))
  {
    hide Wire, Crc32.Xor, Crc32.Crc, Put4, Get4, Put2, LengthOk, Rules, LastValue;
    LastIsFingerprint(xs);
    if Has(xs, FINGERPRINT) {
      FingerprintValue(s, xs);
      WordMatches(s[|s| - 4..], Crc32.Xor(Crc32.Crc(s[..|s| - 8]), FINGERPRINT_XOR));
    }
  }

  lemma FingerprintValue(s: seq<byte>, xs: seq<Attribute>)
    requires |s| >= 20 && s[20..] == Wire(xs) && Rules(xs) && Has(xs, FINGERPRINT)
    ensures |s| >= 28 && LastValue(xs, FINGERPRINT) == Some(s[|s| - 4..])
  {
    hide Wire, Put2, Rules, LastValue;
    LastIs(xs, FINGERPRINT);
    SplitLast(xs);
    TailParts(s, Wire(xs[..|xs| - 1]), Put2(FINGERPRINT) + Put2(4), xs[|xs| - 1].value);
  }

  lemma LastIsFingerprint(xs: seq<Attribute>)
    requires Rules(xs)
    ensures Has(xs, FINGERPRINT) <==> xs != [] && xs[|xs| - 1].typ == FINGERPRINT
  {
    LastValueIsLast(xs, FINGERPRINT);
    if Has(xs, FINGERPRINT) {
      LastIs(xs, FINGERPRINT);
    }
  }

  lemma WordMatches(v: seq<byte>, x: bv32)
    requires |v| == 4
    ensures Get4(v, 0) == x <==> v == Put4(x)
  {
    hide Get4, Put4;
    Get4Determines(v);
    GetPut4(x);
  }
}
