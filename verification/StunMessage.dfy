/** Outgoing STUN messages as byte strings, message integrity, and the round trip through the grammar. */
module StunMessage {
  import opened Bytes
  import opened StunGrammar
  import Crc32

  /** HMAC-SHA1, left abstract: any function of key and text to twenty octets. */
  type Digest = d: seq<byte> | |d| == 20 witness seq(20, _ => 0)
  type Hmac = (seq<byte>, seq<byte>) -> Digest

  // ---- XOR-MAPPED-ADDRESS (section 15.2 of RFC 5389) --------------------------------------------

  /** A socket address; port and address octets are in network order. */
  datatype Address = V4(port: seq<byte>, ip: seq<byte>) | V6(port: seq<byte>, ip: seq<byte>) | OtherFamily {
    predicate Valid() {
      match this
      case V4(port, ip) => |port| == 2 && |ip| == 4
      case V6(port, ip) => |port| == 2 && |ip| == 16
      case OtherFamily => true
    }
  }

  function XorBytes(a: seq<byte>, b: seq<byte>): (r: seq<byte>)
    requires |a| <= |b|
    ensures |r| == |a|
  {
    seq(|a|, i requires 0 <= i < |a| => a[i] ^ b[i])
  }

  lemma XorBytesTwice(a: seq<byte>, b: seq<byte>)
    requires |a| <= |b|
    ensures XorBytes(XorBytes(a, b), b) == a
  {
    forall i | 0 <= i < |a|
      ensures (a[i] ^ b[i]) ^ b[i] == a[i]
    {
      XorByteTwice(a[i], b[i]);
    }
  }

  lemma XorByteTwice(x: byte, y: byte)
    ensures (x ^ y) ^ y == x
  {
  }

  function Mapped(a: Address, tid: seq<byte>): (v: seq<byte>)
    requires a.Valid() && !a.OtherFamily? && |tid| == 12
    ensures |v| == if a.V4? then 8 else 20
  {
    [0, if a.V4? then 1 else 2] + XorBytes(a.port, MAGIC_COOKIE) + XorBytes(a.ip, MAGIC_COOKIE + tid)
  }

  /** The receiver's reading of the attribute. */
  function Unmapped(v: seq<byte>, tid: seq<byte>): Option<Address>
    requires |tid| == 12
  {
    if |v| == 8 && v[1] == 1 then Some(V4(XorBytes(v[2..4], MAGIC_COOKIE), XorBytes(v[4..], MAGIC_COOKIE)))
    else if |v| == 20 && v[1] == 2 then Some(V6(XorBytes(v[2..4], MAGIC_COOKIE), XorBytes(v[4..], MAGIC_COOKIE + tid)))
    else None
  }

  lemma UnmappedMapped(a: Address, tid: seq<byte>)
    requires a.Valid() && !a.OtherFamily? && |tid| == 12
    ensures Unmapped(Mapped(a, tid), tid) == Some(a)
  {
    var v := Mapped(a, tid);
    assert v[2..4] == XorBytes(a.port, MAGIC_COOKIE) && v[4..] == XorBytes(a.ip, MAGIC_COOKIE + tid);
    XorBytesTwice(a.port, MAGIC_COOKIE);
    XorBytesTwice(a.ip, MAGIC_COOKIE + tid);
    if a.V4? {
      assert XorBytes(v[4..], MAGIC_COOKIE) == XorBytes(v[4..], MAGIC_COOKIE + tid);
    }
  }

  // ---- outgoing messages ------------------------------------------------------------------------

  datatype Outgoing = Outgoing(klass: Class, msgMethod: bv16, tid: seq<byte>, fields: Fields,
                               address: Option<Address>, password: seq<byte>) {
    predicate Valid() {
      && |tid| == 12 && msgMethod < 0x1000 && |fields.username| < 513 && 0 <= fields.errorCode < 0x10000
      && (address.Some? ==> address.value.Valid())
    }

    predicate HasAddress() {
      address.Some? && !address.value.OtherFamily? && msgMethod == BINDING && klass == SuccessResponse
    }

    predicate HasErrorCode() {
      fields.errorCode != 0 && klass == ErrorResponse
    }

    predicate HasIntegrity() {
      klass != ErrorResponse && password != []
    }
  }

  /** The ERROR-CODE value, both octets computed modulo 256. */
  function ErrorValue(code: int): (v: seq<byte>)
    requires 0 <= code < 0x10000
    ensures |v| == 4
  {
    var klass := code / 100 % 256;
    [0, 0, ToByte(klass), ToByte((code % 256 - klass * 100) % 256)]
  }

  lemma ErrorArithmetic(code: int, klass: int, number: int)
    requires 0 <= code < 0x10000 && klass == code / 100 % 256 && number == (code % 256 - klass * 100) % 256
    ensures klass * 100 + number == code <==> code < 25600
  {
    if code < 25600 {
      var q := code / 256;
      assert code % 256 - klass * 100 == code % 100 - 256 * q;
      ModuloShift(code % 100, q);
    } else {
      assert klass <= code / 100 - 256;
    }
  }

  lemma {:induction false} ModuloShift(r: int, q: nat)
    requires 0 <= r < 256
    ensures (r - 256 * q) % 256 == r
  {
    if q != 0 {
      ModuloShift(r, q - 1);
    }
  }

  /** Decoding the two octets gives the code back exactly below 25600. */
  lemma ErrorCodeRoundTrip(code: int)
    requires 0 <= code < 0x10000
    ensures Code(Some(ErrorValue(code))) == code <==> code < 25600
  {
    hide ErrorValue, Code;
    var klass := code / 100 % 256;
    var number := (code % 256 - klass * 100) % 256;
    CodeOfOctets(code, klass, number);
    ErrorArithmetic(code, klass, number);
  }

  /** Below 25600 the two octets are the hundreds of the code and the rest, behind two zeros. */
  lemma ErrorOctets(code: int)
    requires 0 <= code < 25600
    ensures var v := ErrorValue(code);
            v[0] == 0 && v[1] == 0 && v[2] as int == code / 100 && v[3] as int == code % 100
  {
    hide ToByte;
    var klass := code / 100;
    ErrorArithmetic(code, klass, (code % 256 - klass * 100) % 256);
  }

  /** The least code that is lost: its class octet wraps around to zero. */
  lemma LeastLostCode()
    ensures Code(Some(ErrorValue(25600))) == 0
  {
    CodeOfOctets(25600, 0, 0);
  }

  lemma CodeOfOctets(code: int, klass: int, number: int)
    requires 0 <= code < 0x10000 && klass == code / 100 % 256 && number == (code % 256 - klass * 100) % 256
    ensures Code(Some(ErrorValue(code))) == klass * 100 + number
  {
    hide ToByte;
  }

  /** `pad` is what the buffer held behind the username; no content is prescribed for it. */
  predicate PadFits(o: Outgoing, pad: seq<byte>) {
    |pad| == Pad4(|o.fields.username|) - |o.fields.username|
  }

  /** An attribute position in the fixed serialisation order, and whether it is filled. */
  datatype Slot = Slot(used: bool, attr: Attribute)

  function Keep(slots: seq<Slot>): seq<Attribute> {
    if slots == [] then []
    else Keep(slots[..|slots| - 1]) + if slots[|slots| - 1].used then [slots[|slots| - 1].attr] else []
  }

  /** Everything in front of MESSAGE-INTEGRITY. */
  function Slots(o: Outgoing, pad: seq<byte>): (slots: seq<Slot>)
    requires o.Valid() && PadFits(o, pad)
    ensures |slots| == 7
  {
    [Slot(o.fields.username != [], Attr(USERNAME, o.fields.username, pad)),
     Slot(o.fields.priority != 0, Attr(PRIORITY, Put4(o.fields.priority), [])),
     Slot(o.fields.iceControlling != 0, Attr(ICE_CONTROLLING, Put8(o.fields.iceControlling), [])),
     Slot(o.fields.iceControlled != 0, Attr(ICE_CONTROLLED, Put8(o.fields.iceControlled), [])),
     Slot(o.fields.useCandidate, Attr(USE_CANDIDATE, [], [])),
     Slot(o.HasAddress(), Attr(XOR_MAPPED_ADDRESS, if o.HasAddress() then Mapped(o.address.value, o.tid) else [], [])),
     Slot(o.HasErrorCode(), Attr(ERROR_CODE, ErrorValue(o.fields.errorCode), []))]
  }

  function Body(o: Outgoing, pad: seq<byte>): seq<byte>
    requires o.Valid() && PadFits(o, pad)
  {
    Wire(Keep(Slots(o, pad)))
  }

  // ---- facts about kept slots -------------------------------------------------------------------

  lemma KeepSnoc(slots: seq<Slot>, k: nat)
    requires k < |slots|
    ensures Keep(slots[..k + 1]) == Keep(slots[..k]) + if slots[k].used then [slots[k].attr] else []
  {
    assert slots[..k + 1][..k] == slots[..k];
  }

  /** With no type used twice, the value read for a type is that of its slot. */
  lemma {:induction false} KeepValue(slots: seq<Slot>, k: nat, t: int)
    requires k < |slots| && slots[k].attr.typ == t
    requires forall i :: 0 <= i < |slots| && i != k ==> slots[i].attr.typ != t
    ensures LastValue(Keep(slots), t) == if slots[k].used then Some(slots[k].attr.value) else None
  {
    var n := |slots| - 1;
    if slots[n].used {
      LastValueSnoc(Keep(slots[..n]), slots[n].attr, t);
    } else {
      assert Keep(slots) == Keep(slots[..n]);
    }
    if k < n {
      KeepValue(slots[..n], k, t);
    } else {
      KeepNothing(slots[..n], t);
    }
  }

  lemma {:induction false} KeepNothing(slots: seq<Slot>, t: int)
    requires forall i :: 0 <= i < |slots| ==> slots[i].attr.typ != t
    ensures !Has(Keep(slots), t)
  {
    if slots != [] {
      var n := |slots| - 1;
      KeepNothing(slots[..n], t);
      if slots[n].used {
        LastValueSnoc(Keep(slots[..n]), slots[n].attr, t);
      } else {
        assert Keep(slots) == Keep(slots[..n]);
      }
    }
  }

  lemma {:induction false} KeepRules(slots: seq<Slot>)
    requires forall i :: 0 <= i < |slots| ==> slots[i].used ==> LengthOk(slots[i].attr)
    requires forall i :: 0 <= i < |slots| ==> slots[i].attr.typ != FINGERPRINT && slots[i].attr.typ != MESSAGE_INTEGRITY
    ensures Rules(Keep(slots))
  {
    hide Rules, LengthOk;
    if slots == [] {
      NoRules();
    } else {
      var n := |slots| - 1;
      KeepRules(slots[..n]);
      if slots[n].used {
        KeepNothing(slots[..n], FINGERPRINT);
        KeepNothing(slots[..n], MESSAGE_INTEGRITY);
        RulesSnoc(Keep(slots[..n]), slots[n].attr);
      } else {
        assert Keep(slots) == Keep(slots[..n]);
      }
    }
  }

  lemma NoRules()
    ensures Rules([])
  {
  }

  lemma AttributeSize(a: Attribute)
    requires |a.value| <= 512
    ensures |a.Wire()| <= 516 && |a.Wire()| % 4 == 0
  {
    hide Attr.Wire;
  }

  lemma {:induction false} KeepSize(slots: seq<Slot>)
    requires forall i :: 0 <= i < |slots| ==> |slots[i].attr.value| <= 512
    ensures |Wire(Keep(slots))| <= 516 * |slots| && |Wire(Keep(slots))| % 4 == 0
  {
    hide Wire, Attr.Wire, Pad4;
    if slots == [] {
      NoWire();
    } else {
      var n := |slots| - 1;
      KeepSize(slots[..n]);
      if slots[n].used {
        WireSnoc(Keep(slots[..n]), slots[n].attr);
        AttributeSize(slots[n].attr);
      } else {
        assert Keep(slots) == Keep(slots[..n]);
      }
    }
  }

  lemma NoWire()
    ensures Wire([]) == []
  {
  }

  lemma BodySize(o: Outgoing, pad: seq<byte>)
    requires o.Valid() && PadFits(o, pad)
    ensures |Body(o, pad)| <= 3612 && |Body(o, pad)| % 4 == 0
  {
    hide Keep, Wire;
    KeepSize(Slots(o, pad));
  }

  // ---- the whole message ------------------------------------------------------------------------

  function Header(o: Outgoing, length: int): (h: seq<byte>)
    requires o.Valid() && 0 <= length < 0x10000
    ensures |h| == 20
  {
    [High(TypeField(o.klass, o.msgMethod)), Low(TypeField(o.klass, o.msgMethod))] + Put2(length) + MAGIC_COOKIE + o.tid
  }

  function Size(o: Outgoing, pad: seq<byte>): (n: nat)
    requires o.Valid() && PadFits(o, pad)
    ensures 28 <= n <= 3664 && n % 4 == 0
  {
    BodySize(o, pad);
    20 + |Body(o, pad)| + (if o.HasIntegrity() then 24 else 0) + 8
  }

  /** Header and attributes as hashed: the length field already counts MESSAGE-INTEGRITY, not FINGERPRINT. */
  function Signed(o: Outgoing, pad: seq<byte>): seq<byte>
    requires o.Valid() && PadFits(o, pad)
  {
    Header(o, Size(o, pad) - 28) + Body(o, pad)
  }

  function IntegrityAttr(o: Outgoing, pad: seq<byte>, hmac: Hmac): Attribute
    requires o.Valid() && PadFits(o, pad)
  {
    Attr(MESSAGE_INTEGRITY, hmac(o.password, Signed(o, pad)), [])
  }

  /** Everything the FINGERPRINT covers. */
  function Covered(o: Outgoing, pad: seq<byte>, hmac: Hmac): seq<byte>
    requires o.Valid() && PadFits(o, pad)
  {
    Header(o, Size(o, pad) - 20) + Body(o, pad) + (if o.HasIntegrity() then IntegrityAttr(o, pad, hmac).Wire() else [])
  }

  lemma CoveredParts(o: Outgoing, pad: seq<byte>, hmac: Hmac)
    requires o.Valid() && PadFits(o, pad)
    ensures var n, m := Size(o, pad), Header(o, Size(o, pad) - 20) + Body(o, pad);
            if o.HasIntegrity()
            then n == 52 + |Body(o, pad)| && Covered(o, pad, hmac) == m + IntegrityAttr(o, pad, hmac).Wire()
            else n == 28 + |Body(o, pad)| && Covered(o, pad, hmac) == m
  {
    hide Header, Body, Attr.Wire, IntegrityAttr;
    assert Header(o, Size(o, pad) - 20) + Body(o, pad) + [] == Header(o, Size(o, pad) - 20) + Body(o, pad);
  }

  function FingerprintOver(s: seq<byte>): Attribute {
    Attr(FINGERPRINT, Put4(Crc32.Xor(Crc32.Crc(s), FINGERPRINT_XOR)), [])
  }

  function FingerprintAttr(o: Outgoing, pad: seq<byte>, hmac: Hmac): Attribute
    requires o.Valid() && PadFits(o, pad)
  {
    FingerprintOver(Covered(o, pad, hmac))
  }

  function MessageBytes(o: Outgoing, pad: seq<byte>, hmac: Hmac): (s: seq<byte>)
    requires o.Valid() && PadFits(o, pad)
    ensures |s| == Size(o, pad)
  {
    Covered(o, pad, hmac) + FingerprintAttr(o, pad, hmac).Wire()
  }

  /** The attributes of a serialised message, in order. */
  function AllSlots(o: Outgoing, pad: seq<byte>, hmac: Hmac): (slots: seq<Slot>)
    requires o.Valid() && PadFits(o, pad)
    ensures |slots| == 9
  {
    Slots(o, pad) + [Slot(o.HasIntegrity(), IntegrityAttr(o, pad, hmac)), Slot(true, FingerprintAttr(o, pad, hmac))]
  }

  lemma KeepAll(o: Outgoing, pad: seq<byte>, hmac: Hmac)
    requires o.Valid() && PadFits(o, pad)
    ensures Keep(AllSlots(o, pad, hmac)) == Keep(Slots(o, pad))
              + (if o.HasIntegrity() then [IntegrityAttr(o, pad, hmac)] else []) + [FingerprintAttr(o, pad, hmac)]
  {
    hide Slots, IntegrityAttr, FingerprintAttr;
    var all := AllSlots(o, pad, hmac);
    KeepSnoc(all, 8);
    KeepSnoc(all, 7);
    assert all[..9] == all && all[..7] == Slots(o, pad);
  }

  lemma MessageWire(o: Outgoing, pad: seq<byte>, hmac: Hmac)
    requires o.Valid() && PadFits(o, pad)
    ensures MessageBytes(o, pad, hmac) == Header(o, Size(o, pad) - 20) + Wire(Keep(AllSlots(o, pad, hmac)))
  {
    hide Header, Wire, Attr.Wire, Keep, AllSlots, IntegrityAttr, FingerprintAttr;
    var h, b := Header(o, Size(o, pad) - 20), Keep(Slots(o, pad));
    var mi, fp := IntegrityAttr(o, pad, hmac), FingerprintAttr(o, pad, hmac);
    KeepAll(o, pad, hmac);
    if o.HasIntegrity() {
      WireSnoc(b, mi);
      WireSnoc(b + [mi], fp);
      assert ((h + Wire(b)) + mi.Wire()) + fp.Wire() == h + ((Wire(b) + mi.Wire()) + fp.Wire());
    } else {
      WireSnoc(b, fp);
      assert b + [] == b;
      assert ((h + Wire(b)) + []) + fp.Wire() == h + (Wire(b) + fp.Wire());
    }
  }

  // ---- round trip -------------------------------------------------------------------------------

  /** The type serialised at each position; no type has two. */
  function TypeAt(i: nat): int
    requires i < 9
  {
    if i == 0 then USERNAME else if i == 1 then PRIORITY else if i == 2 then ICE_CONTROLLING
    else if i == 3 then ICE_CONTROLLED else if i == 4 then USE_CANDIDATE else if i == 5 then XOR_MAPPED_ADDRESS
    else if i == 6 then ERROR_CODE else if i == 7 then MESSAGE_INTEGRITY else FINGERPRINT
  }

  lemma SlotTypes(o: Outgoing, pad: seq<byte>, hmac: Hmac)
    requires o.Valid() && PadFits(o, pad)
    ensures forall i :: 0 <= i < 9 ==> AllSlots(o, pad, hmac)[i].attr.typ == TypeAt(i)
  {
    hide Header, Body, Put4, Put8, Mapped, ErrorValue, Covered, Signed;
    var all := AllSlots(o, pad, hmac);
    forall i | 0 <= i < 9
      ensures all[i].attr.typ == TypeAt(i)
    {
      if i < 7 {
        assert all[i] == Slots(o, pad)[i];
      }
    }
  }

  /** The value a receiver reads at a position is the one serialised there. */
  lemma SlotValue(o: Outgoing, pad: seq<byte>, hmac: Hmac, k: nat)
    requires o.Valid() && PadFits(o, pad) && k < 9
    ensures var slot := AllSlots(o, pad, hmac)[k];
            LastValue(Keep(AllSlots(o, pad, hmac)), TypeAt(k)) == if slot.used then Some(slot.attr.value) else None
  {
    hide AllSlots, Keep, LastValue;
    SlotTypes(o, pad, hmac);
    KeepValue(AllSlots(o, pad, hmac), k, TypeAt(k));
  }

  lemma BodyValue(o: Outgoing, pad: seq<byte>, hmac: Hmac, k: nat)
    requires o.Valid() && PadFits(o, pad) && k < 7
    ensures var slot := Slots(o, pad)[k];
            LastValue(Keep(AllSlots(o, pad, hmac)), TypeAt(k)) == if slot.used then Some(slot.attr.value) else None
  {
    hide Slots, Keep, LastValue, IntegrityAttr, FingerprintAttr;
    SlotValue(o, pad, hmac, k);
  }

  /** The fields a message of this class carries. */
  function Carried(o: Outgoing): Fields
    requires o.Valid()
  {
    o.fields.(errorCode := if o.HasErrorCode() then Code(Some(ErrorValue(o.fields.errorCode))) else 0)
  }

  lemma FieldsRoundTrip(o: Outgoing, pad: seq<byte>, hmac: Hmac)
    requires o.Valid() && PadFits(o, pad)
    ensures FieldsOf(Keep(AllSlots(o, pad, hmac))) == Carried(o)
  {
    hide LastValue, Keep, AllSlots, Slots, Has, Text, Word32, Word64, Code;
    WordsRoundTrip(o, pad, hmac);
    RolesRoundTrip(o, pad, hmac);
    FlagsRoundTrip(o, pad, hmac);
  }

  lemma WordsRoundTrip(o: Outgoing, pad: seq<byte>, hmac: Hmac)
    requires o.Valid() && PadFits(o, pad)
    ensures var xs := Keep(AllSlots(o, pad, hmac));
            Text(LastValue(xs, USERNAME)) == o.fields.username && Word32(LastValue(xs, PRIORITY)) == o.fields.priority
  {
    hide LastValue, Keep, AllSlots, Put4, Put8, Get4, ErrorValue, Mapped;
    BodyValue(o, pad, hmac, 0);
    BodyValue(o, pad, hmac, 1);
    GetPut4(o.fields.priority);
  }

  lemma RolesRoundTrip(o: Outgoing, pad: seq<byte>, hmac: Hmac)
    requires o.Valid() && PadFits(o, pad)
    ensures var xs := Keep(AllSlots(o, pad, hmac));
            && Word64(LastValue(xs, ICE_CONTROLLING)) == o.fields.iceControlling
            && Word64(LastValue(xs, ICE_CONTROLLED)) == o.fields.iceControlled
  {
    hide LastValue, Keep, AllSlots, Put4, Put8, Get8, ErrorValue, Mapped;
    BodyValue(o, pad, hmac, 2);
    BodyValue(o, pad, hmac, 3);
    GetPut8(o.fields.iceControlling);
    GetPut8(o.fields.iceControlled);
  }

  lemma FlagsRoundTrip(o: Outgoing, pad: seq<byte>, hmac: Hmac)
    requires o.Valid() && PadFits(o, pad)
    ensures var xs := Keep(AllSlots(o, pad, hmac));
            Has(xs, USE_CANDIDATE) == o.fields.useCandidate && Code(LastValue(xs, ERROR_CODE)) == Carried(o).errorCode
  {
    hide LastValue, Keep, AllSlots, Put4, Put8, ErrorValue, Mapped;
    BodyValue(o, pad, hmac, 4);
    BodyValue(o, pad, hmac, 6);
  }

  lemma RulesRoundTrip(o: Outgoing, pad: seq<byte>, hmac: Hmac)
    requires o.Valid() && PadFits(o, pad)
    ensures Rules(Keep(AllSlots(o, pad, hmac)))
  {
    hide Rules, Keep, LastValue, AllSlots, Slots, Covered, Signed, Crc32.Xor, Put4;
    var b := Keep(Slots(o, pad));
    var mi, fp := IntegrityAttr(o, pad, hmac), FingerprintAttr(o, pad, hmac);
    BodyRules(o, pad);
    KeepAll(o, pad, hmac);
    if o.HasIntegrity() {
      RulesSnoc(b, mi);
      LastValueSnoc(b, mi, FINGERPRINT);
      RulesSnoc(b + [mi], fp);
    } else {
      assert b + [] == b;
      RulesSnoc(b, fp);
    }
  }

  lemma BodyRules(o: Outgoing, pad: seq<byte>)
    requires o.Valid() && PadFits(o, pad)
    ensures var xs := Keep(Slots(o, pad)); Rules(xs) && !Has(xs, FINGERPRINT) && !Has(xs, MESSAGE_INTEGRITY)
  {
    hide Rules, Keep, LastValue, Put4, Put8, ErrorValue, Mapped;
    var slots := Slots(o, pad);
    KeepRules(slots);
    KeepNothing(slots, FINGERPRINT);
    KeepNothing(slots, MESSAGE_INTEGRITY);
  }

  lemma HeaderParts(o: Outgoing, length: int, w: seq<byte>)
    requires o.Valid() && 0 <= length < 0x10000
    ensures var s := Header(o, length) + w;
            && s[0] == High(TypeField(o.klass, o.msgMethod)) && s[1] == Low(TypeField(o.klass, o.msgMethod))
            && s[..2] == [High(TypeField(o.klass, o.msgMethod)), Low(TypeField(o.klass, o.msgMethod))]
            && s[2..4] == Put2(length) && Get2(s, 2) == length
            && s[4..8] == MAGIC_COOKIE && s[8..20] == o.tid && s[20..] == w
  {
    hide Put2, Get2, High, Low, TypeField;
    var s := Header(o, length) + w;
    assert s[2..4] == Put2(length);
    Get2Local(s, 2);
  }

  /** Which class and method pairs survive the first-octet test of IsStun. */
  predicate Recognised(klass: Class, m: bv16) {
    m < 0x80 || (m < 0x100 && (klass == Request || klass == Indication))
  }

  /** What a receiver must see. */
  function Sent(o: Outgoing, pad: seq<byte>): Packet
    requires o.Valid() && PadFits(o, pad)
  {
    Packet(o.klass, o.msgMethod, o.tid, Carried(o), if o.HasIntegrity() then Some(Size(o, pad) - 28) else None, true)
  }

  lemma SentIsMessage(o: Outgoing, pad: seq<byte>, hmac: Hmac)
    requires o.Valid() && PadFits(o, pad)
    ensures IsStun(MessageBytes(o, pad, hmac)) <==> Recognised(o.klass, o.msgMethod)
    ensures Recognised(o.klass, o.msgMethod) ==> IsMessage(MessageBytes(o, pad, hmac), Keep(AllSlots(o, pad, hmac)))
  {
    hide Header, Wire, Keep, AllSlots, Rules, FingerprintOk, TypeField, High, Low, MessageBytes, Size;
    MessageWire(o, pad, hmac);
    HeaderParts(o, Size(o, pad) - 20, Wire(Keep(AllSlots(o, pad, hmac))));
    TypeFieldRoundTrip(o.klass, o.msgMethod);
    RulesRoundTrip(o, pad, hmac);
    FingerprintRoundTrip(o, pad, hmac);
  }

  lemma FingerprintRoundTrip(o: Outgoing, pad: seq<byte>, hmac: Hmac)
    requires o.Valid() && PadFits(o, pad)
    ensures FingerprintOk(MessageBytes(o, pad, hmac), Keep(AllSlots(o, pad, hmac)))
  {
    hide Keep, LastValue, Slots, Covered, IntegrityAttr, Crc32.Xor, Crc32.Crc, Put4, Get4;
    var s := MessageBytes(o, pad, hmac);
    SlotValue(o, pad, hmac, 8);
    GetPut4(Crc32.Xor(Crc32.Crc(Covered(o, pad, hmac)), FINGERPRINT_XOR));
    assert s[..|s| - 8] == Covered(o, pad, hmac);
  }

  lemma TypeRoundTrip(o: Outgoing, pad: seq<byte>, hmac: Hmac)
    requires o.Valid() && PadFits(o, pad)
    ensures var s := MessageBytes(o, pad, hmac);
            ClassOf(s[0], s[1]) == o.klass && MethodOf(s[0], s[1]) == o.msgMethod && s[8..20] == o.tid
  {
    hide Header, Wire, Keep, AllSlots, TypeField, High, Low, ClassOf, MethodOf, MessageBytes, Size;
    MessageWire(o, pad, hmac);
    HeaderParts(o, Size(o, pad) - 20, Wire(Keep(AllSlots(o, pad, hmac))));
    TypeFieldRoundTrip(o.klass, o.msgMethod);
  }

  lemma PacketRoundTrip(o: Outgoing, pad: seq<byte>, hmac: Hmac)
    requires o.Valid() && PadFits(o, pad)
    ensures PacketOf(MessageBytes(o, pad, hmac), Keep(AllSlots(o, pad, hmac))) == Sent(o, pad)
  {
    hide Keep, AllSlots, ClassOf, MethodOf, MessageBytes, Size, FieldsOf, Has, LastValue, Carried;
    TypeRoundTrip(o, pad, hmac);
    FieldsRoundTrip(o, pad, hmac);
    TrailingSlots(o, pad, hmac);
  }

  /** Round trip: a serialised message is accepted exactly when IsStun recognises its type, and reads back as sent. */
  lemma RoundTrip(o: Outgoing, pad: seq<byte>, hmac: Hmac)
    requires o.Valid() && PadFits(o, pad)
    ensures Parsed(MessageBytes(o, pad, hmac)) == if Recognised(o.klass, o.msgMethod) then Some(Sent(o, pad)) else None
  {
    hide MessageBytes, Keep, AllSlots, IsMessage, PacketOf, Sent;
    SentIsMessage(o, pad, hmac);
    PacketRoundTrip(o, pad, hmac);
    ParsedIsGrammar(MessageBytes(o, pad, hmac));
  }

  /** Nothing is lost on the way, except an error code where none is sent or its class octet overflows. */
  lemma CarriedExactly(o: Outgoing)
    requires o.Valid()
    ensures Carried(o) == o.fields
       <==> o.fields.errorCode == 0 || (o.klass == ErrorResponse && o.fields.errorCode < 25600)
  {
    hide ErrorValue, Code;
    ErrorCodeRoundTrip(o.fields.errorCode);
  }

  lemma TrailingSlots(o: Outgoing, pad: seq<byte>, hmac: Hmac)
    requires o.Valid() && PadFits(o, pad)
    ensures Has(Keep(AllSlots(o, pad, hmac)), MESSAGE_INTEGRITY) == o.HasIntegrity()
    ensures Has(Keep(AllSlots(o, pad, hmac)), FINGERPRINT)
    ensures o.HasIntegrity() ==>
              LastValue(Keep(AllSlots(o, pad, hmac)), MESSAGE_INTEGRITY) == Some(IntegrityAttr(o, pad, hmac).value)
    ensures o.HasIntegrity() ==> Size(o, pad) >= 52
  {
    hide Slots, Keep, LastValue, IntegrityAttr, FingerprintAttr;
    SlotValue(o, pad, hmac, 7);
    SlotValue(o, pad, hmac, 8);
  }

  // ---- padding octets on the wire ---------------------------------------------------------------

  lemma {:induction false} KeepFirst(slots: seq<Slot>)
    requires slots != [] && slots[0].used
    ensures Keep(slots) != [] && Keep(slots)[0] == slots[0].attr
  {
    if |slots| > 1 {
      KeepFirst(slots[..|slots| - 1]);
    } else {
      assert slots[..0] == [];
    }
  }

  lemma FirstKept(o: Outgoing, pad: seq<byte>, hmac: Hmac)
    requires o.Valid() && PadFits(o, pad) && o.fields.username != []
    ensures Keep(AllSlots(o, pad, hmac)) != []
    ensures Keep(AllSlots(o, pad, hmac))[0] == Attr(USERNAME, o.fields.username, pad)
  {
    KeepFirst(AllSlots(o, pad, hmac));
    hide Keep, Put4, Put8, ErrorValue, Mapped, Signed, Covered;
    assert AllSlots(o, pad, hmac)[0] == Slots(o, pad)[0];
  }

  /** Whatever lies behind the username goes out: a message determines its padding. */
  lemma PaddingIsSent(o: Outgoing, p: seq<byte>, q: seq<byte>, hmac: Hmac)
    requires o.Valid() && PadFits(o, p) && PadFits(o, q) && MessageBytes(o, p, hmac) == MessageBytes(o, q, hmac)
    ensures p == q
  {
    if o.fields.username == [] {
      assert p == [] && q == [];
    } else {
      hide *;
      var xs, ys := Keep(AllSlots(o, p, hmac)), Keep(AllSlots(o, q, hmac));
      MessageWire(o, p, hmac);
      MessageWire(o, q, hmac);
      HeaderParts(o, Size(o, p) - 20, Wire(xs));
      HeaderParts(o, Size(o, q) - 20, Wire(ys));
      DecodeWire(xs);
      DecodeWire(ys);
      FirstKept(o, p, hmac);
      FirstKept(o, q, hmac);
    }
  }

  /** The octets sent depend on what the buffer held before exactly if the username is not a whole number of words. */
  lemma PaddingMatters(o: Outgoing, hmac: Hmac)
    requires o.Valid()
    ensures (forall p, q :: PadFits(o, p) && PadFits(o, q) ==> MessageBytes(o, p, hmac) == MessageBytes(o, q, hmac))
            <==> |o.fields.username| % 4 == 0
  {
    hide MessageBytes, Outgoing.Valid;
    var n := Pad4(|o.fields.username|) - |o.fields.username|;
    if |o.fields.username| % 4 == 0 {
      forall p, q | PadFits(o, p) && PadFits(o, q)
        ensures p == q
      {
        assert p == [] && q == [];
      }
    } else {
      var p, q := seq(n, _ => 0), seq(n, _ => 1);
      assert p[0] != q[0];
      if MessageBytes(o, p, hmac) == MessageBytes(o, q, hmac) {
        PaddingIsSent(o, p, q, hmac);
      }
    }
  }

  // ---- message integrity (section 15.4 of RFC 5389) ---------------------------------------------

  datatype Authentication = OK | Unauthorized | BadRequest

  const COLON: byte := 0x3A

  /** USERNAME begins with the local fragment and a colon. */
  predicate PrefixOk(username: seq<byte>, local: seq<byte>) {
    |username| > |local| && username[|local|] == COLON && username[..|local|] == local
  }

  /** The hashed text: the octets before the attribute, with a length field counting up to the attribute's end. */
  function AuthInput(s: seq<byte>, off: nat): seq<byte>
    requires 24 <= off <= |s| && off < 0x10000
  {
    s[..2] + Put2(off) + s[4..off - 4]
  }

  predicate IntegrityFits(s: seq<byte>, p: Packet) {
    p.integrity.Some? ==> 24 <= p.integrity.value && p.integrity.value + 20 <= |s| && p.integrity.value < 0x10000
  }

  /** The integrity value in `s` is the HMAC of the hashed text under `key`. */
  predicate Verifies(s: seq<byte>, off: nat, key: seq<byte>, hmac: Hmac)
    requires 24 <= off && off + 20 <= |s| && off < 0x10000
  {
    s[off..off + 20] == hmac(key, AuthInput(s, off))
  }

  function CheckAuth(s: seq<byte>, p: Packet, local: seq<byte>, key: seq<byte>, hmac: Hmac): Authentication
    requires IntegrityFits(s, p)
  {
    if p.klass == SuccessResponse || p.klass == ErrorResponse then BadRequest
    else if p.integrity.None? || p.fields.username == [] then BadRequest
    else if !PrefixOk(p.fields.username, local) then Unauthorized
    else if Verifies(s, p.integrity.value, key, hmac) then OK else Unauthorized
  }

  lemma ParsedFits(s: seq<byte>, p: Packet)
    requires Parsed(s) == Some(p)
    ensures |s| >= 20 && IntegrityFits(s, p) && Get2(s, 2) == |s| - 20 && (p.fingerprint ==> |s| >= 28)
    ensures p.integrity.Some? ==> p.integrity.value == |s| - 20 - if p.fingerprint then 8 else 0
  {
    hide Get2, Rules, LastValue, Wire, FingerprintOk, FieldsOf;
    ParsedIsGrammar(s);
    var xs :| IsMessage(s, xs);
    if p.integrity.Some? {
      IntegrityAt(s, xs, IntegrityOffset(s, xs));
    }
    if p.fingerprint {
      FingerprintAt(s, xs);
    }
  }

  /** A serialised message verifies under the password it was authenticated with. */
  lemma SentVerifies(o: Outgoing, pad: seq<byte>, hmac: Hmac)
    requires o.Valid() && PadFits(o, pad) && o.HasIntegrity() && Recognised(o.klass, o.msgMethod)
    ensures Size(o, pad) >= 52 && Verifies(MessageBytes(o, pad, hmac), Size(o, pad) - 28, o.password, hmac)
  {
    hide Keep, AllSlots, Rules, LastValue, MessageBytes, Signed, Size;
    var s, xs := MessageBytes(o, pad, hmac), Keep(AllSlots(o, pad, hmac));
    SentIsMessage(o, pad, hmac);
    TrailingSlots(o, pad, hmac);
    IntegrityAt(s, xs, Size(o, pad) - 28);
    SignedIsHashed(o, pad, hmac);
  }

  lemma SignedIsHashed(o: Outgoing, pad: seq<byte>, hmac: Hmac)
    requires o.Valid() && PadFits(o, pad) && o.HasIntegrity()
    ensures Size(o, pad) >= 52 && AuthInput(MessageBytes(o, pad, hmac), Size(o, pad) - 28) == Signed(o, pad)
  {
    hide High, Low, TypeField, Put2, Body, Attr.Wire, FingerprintAttr, IntegrityAttr;
    var n, b := Size(o, pad), Body(o, pad);
    var mi, fp := IntegrityAttr(o, pad, hmac).Wire(), FingerprintAttr(o, pad, hmac).Wire();
    var w := b + mi + fp;
    assert MessageBytes(o, pad, hmac) == Header(o, n - 20) + w;
    HeaderTail(o, n - 20, n - 28, w, |b|);
    assert w[..|b|] == b;
  }

  /** Replacing the length field of a header, and keeping `k` octets behind it. */
  lemma HeaderTail(o: Outgoing, length: int, patched: int, w: seq<byte>, k: nat)
    requires o.Valid() && 0 <= length < 0x10000 && 0 <= patched < 0x10000 && k <= |w|
    ensures var s := Header(o, length) + w;
            s[..2] + Put2(patched) + s[4..20 + k] == Header(o, patched) + w[..k]
  {
    hide High, Low, TypeField, Put2;
    var s := Header(o, length) + w;
    var t := [High(TypeField(o.klass, o.msgMethod)), Low(TypeField(o.klass, o.msgMethod))];
    assert s[..2] == t;
    assert s[4..20 + k] == MAGIC_COOKIE + o.tid + w[..k];
  }

}
