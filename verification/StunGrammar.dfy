/** What a STUN message is, written as a grammar over byte strings (sections 6 and 15 of RFC 5389). */
module StunGrammar {
  import opened Bytes
  import Crc32

  const MAGIC_COOKIE: seq<byte> := [0x21, 0x12, 0xA4, 0x42]
  const FINGERPRINT_XOR: bv32 := 0x5354554e

  const USERNAME := 0x0006
  const MESSAGE_INTEGRITY := 0x0008
  const ERROR_CODE := 0x0009
  const XOR_MAPPED_ADDRESS := 0x0020
  const PRIORITY := 0x0024
  const USE_CANDIDATE := 0x0025
  const FINGERPRINT := 0x8028
  const ICE_CONTROLLED := 0x8029
  const ICE_CONTROLLING := 0x802A

  const BINDING: bv16 := 1

  datatype Class = Request | Indication | SuccessResponse | ErrorResponse

  // ---- attributes on the wire -------------------------------------------------------------------

  /** A type, a value, and the padding that follows it (its content is free). */
  datatype Attr = Attr(typ: int, value: seq<byte>, pad: seq<byte>) {
    predicate Valid() {
      0 <= typ < 0x10000 && |value| < 0x10000 && |pad| == Pad4(|value|) - |value|
    }

    function Wire(): (s: seq<byte>)
      requires Valid()
      ensures |s| == 4 + Pad4(|value|)
    {
      Put2(typ) + Put2(|value|) + value + pad
    }
  }

  type Attribute = a: Attr | a.Valid() witness Attr(0, [], [])

  function Wire(attrs: seq<Attribute>): seq<byte> {
    if attrs == [] then [] else attrs[0].Wire() + Wire(attrs[1..])
  }

  /** The attributes a byte string is tiled by, if any. */
  function Decode(b: seq<byte>): (r: Option<seq<Attribute>>) {
    if b == [] then Some([])
    else if |b| < 4 || 4 + Pad4(Get2(b, 2)) > |b| then None
    else
      var rest := Decode(b[4 + Pad4(Get2(b, 2))..]);
      if rest.None? then None else Some([FirstAttr(b)] + rest.value)
  }

  function FirstAttr(b: seq<byte>): (a: Attribute)
    requires |b| >= 4 && 4 + Pad4(Get2(b, 2)) <= |b|
  {
    var n := Get2(b, 2);
    Attr(Get2(b, 0), b[4..4 + n], b[4 + n..4 + Pad4(n)])
  }

  lemma FirstAttrWire(b: seq<byte>)
    requires |b| >= 4 && 4 + Pad4(Get2(b, 2)) <= |b|
    ensures FirstAttr(b).Wire() == b[..4 + Pad4(Get2(b, 2))]
  {
    hide Put2, Pad4, Get2;
    var n, p := Get2(b, 2), Pad4(Get2(b, 2));
    Get2Local(b, 0);
    Get2Local(b, 2);
    Get2Determines(b[0..2], Get2(b, 0));
    Get2Determines(b[2..4], n);
    assert FirstAttr(b).Wire() == b[0..2] + b[2..4] + b[4..4 + n] + b[4 + n..4 + p];
    JoinFour(b, n, p);
  }

  lemma JoinFour(b: seq<byte>, n: nat, p: nat)
    requires n <= p && 4 + p <= |b|
    ensures b[0..2] + b[2..4] + b[4..4 + n] + b[4 + n..4 + p] == b[..4 + p]
  {
    assert b[0..2] + b[2..4] == b[..4];
    assert b[..4] + b[4..4 + n] == b[..4 + n];
    assert b[..4 + n] + b[4 + n..4 + p] == b[..4 + p];
  }

  lemma WireFirstAttr(a: Attribute, rest: seq<byte>)
    ensures var b := a.Wire() + rest;
            && |b| >= 4 && Get2(b, 2) == |a.value| && 4 + Pad4(|a.value|) <= |b|
            && FirstAttr(b) == a && b[4 + Pad4(|a.value|)..] == rest
  {
    hide Put2, Get2, Pad4;
    var n, p := |a.value|, Pad4(|a.value|);
    var b := Put2(a.typ) + Put2(n) + a.value + a.pad + rest;
    assert b[0..2] == Put2(a.typ) && b[2..4] == Put2(n);
    assert b[4..4 + n] == a.value && b[4 + n..4 + p] == a.pad && b[4 + p..] == rest;
    Get2Local(b, 0);
    Get2Local(b, 2);
  }

  /** Decode inverts Wire ... */
  lemma {:induction false} DecodeWire(attrs: seq<Attribute>)
    ensures Decode(Wire(attrs)) == Some(attrs)
  {
    hide Attr.Wire, FirstAttr, Get2, Pad4;
    if attrs != [] {
      DecodeWire(attrs[1..]);
      WireFirstAttr(attrs[0], Wire(attrs[1..]));
      assert attrs == [attrs[0]] + attrs[1..];
    }
  }

  /** ... and accepts nothing but what Wire produces, so a tiling is unique when there is one. */
  lemma {:induction false} WireDecode(b: seq<byte>)
    ensures Decode(b).Some? ==> Wire(Decode(b).value) == b
  {
    hide *;
    if b == [] {
      EmptyWire();
    } else if Decode(b).Some? {
      var n, a := DecodeCons(b);
      WireDecode(b[n..]);
      WireCons(a, Decode(b[n..]).value);
      Cut(b, n);
    }
  }

  lemma EmptyWire()
    ensures Decode([]) == Some([]) && Wire([]) == []
  {
  }

  lemma Cut(b: seq<byte>, n: nat)
    requires n <= |b|
    ensures b == b[..n] + b[n..]
  {
  }

  lemma DecodeCons(b: seq<byte>) returns (n: nat, a: Attribute)
    requires b != [] && Decode(b).Some?
    ensures 4 <= n <= |b| && Decode(b[n..]).Some? && Decode(b).value == [a] + Decode(b[n..]).value
    ensures a.Wire() == b[..n]
  {
    hide FirstAttr, Get2, Pad4;
    n, a := 4 + Pad4(Get2(b, 2)), FirstAttr(b);
    hide *;
    FirstAttrWire(b);
  }

  lemma WireCons(a: Attribute, rest: seq<Attribute>)
    ensures Wire([a] + rest) == a.Wire() + Wire(rest)
  {
    hide Attr.Wire;
    assert ([a] + rest)[0] == a && ([a] + rest)[1..] == rest;
  }

  lemma Associate(x: seq<byte>, y: seq<byte>, z: seq<byte>)
    ensures x + (y + z) == (x + y) + z
  {
  }

  lemma {:induction false} WireConcat(a: seq<Attribute>, b: seq<Attribute>)
    ensures Wire(a + b) == Wire(a) + Wire(b)
  {
    hide Attr.Wire;
    if a == [] {
      assert a + b == b;
    } else {
      assert (a + b)[0] == a[0] && (a + b)[1..] == a[1..] + b;
      WireConcat(a[1..], b);
      Associate(a[0].Wire(), Wire(a[1..]), Wire(b));
    }
  }

  lemma WireSnoc(xs: seq<Attribute>, a: Attribute)
    ensures Wire(xs + [a]) == Wire(xs) + a.Wire()
  {
    hide Attr.Wire;
    WireConcat(xs, [a]);
    assert [a][1..] == [];
    assert a.Wire() + [] == a.Wire();
  }

  // ---- attribute rules --------------------------------------------------------------------------

  /** Known attributes have a fixed length; ERROR-CODE a least one. */
  predicate LengthOk(a: Attribute) {
    match a.typ
    case 0x0024 => |a.value| == 4
    case 0x8028 => |a.value| == 4
    case 0x802A => |a.value| == 8
    case 0x8029 => |a.value| == 8
    case 0x0025 => |a.value| == 0
    case 0x0008 => |a.value| == 20
    case 0x0009 => |a.value| >= 4
    case _ => true
  }

  /** FINGERPRINT is last; after MESSAGE-INTEGRITY only FINGERPRINT may come (so neither repeats). */
  predicate Rules(xs: seq<Attribute>) {
    && (forall i :: 0 <= i < |xs| ==> LengthOk(xs[i]))
    && (forall i :: 0 <= i < |xs| - 1 ==> xs[i].typ != FINGERPRINT)
    && (forall i, j :: 0 <= i < j < |xs| && xs[i].typ == MESSAGE_INTEGRITY ==> xs[j].typ == FINGERPRINT)
  }

  /** The value of the last attribute of a type. */
  function LastValue(xs: seq<Attribute>, t: int): Option<seq<byte>> {
    if xs == [] then None
    else if xs[|xs| - 1].typ == t then Some(xs[|xs| - 1].value)
    else LastValue(xs[..|xs| - 1], t)
  }

  predicate Has(xs: seq<Attribute>, t: int) {
    LastValue(xs, t).Some?
  }

  /** LastValue is what its name says: the attribute at some index, with none of that type after it. */
  lemma {:induction false} LastValueIsLast(xs: seq<Attribute>, t: int)
    ensures !Has(xs, t) <==> forall i :: 0 <= i < |xs| ==> xs[i].typ != t
    ensures Has(xs, t) ==> exists i :: 0 <= i < |xs| && xs[i].typ == t && LastValue(xs, t) == Some(xs[i].value)
                                       && forall j :: i < j < |xs| ==> xs[j].typ != t
  {
    if xs != [] && xs[|xs| - 1].typ != t {
      var ys := xs[..|xs| - 1];
      LastValueIsLast(ys, t);
      assert forall i :: 0 <= i < |ys| ==> xs[i] == ys[i];
    }
  }

  lemma LastValueSnoc(xs: seq<Attribute>, a: Attribute, t: int)
    ensures LastValue(xs + [a], t) == if a.typ == t then Some(a.value) else LastValue(xs, t)
  {
    assert (xs + [a])[..|xs|] == xs;
  }

  /** What one more attribute may be, given those before it. */
  predicate MayFollow(xs: seq<Attribute>, a: Attribute) {
    LengthOk(a) && !Has(xs, FINGERPRINT) && (Has(xs, MESSAGE_INTEGRITY) ==> a.typ == FINGERPRINT)
  }

  lemma RulesSnoc(xs: seq<Attribute>, a: Attribute)
    ensures Rules(xs + [a]) <==> Rules(xs) && MayFollow(xs, a)
  {
    if Rules(xs + [a]) {
      RulesPrefix(xs, [a]);
      FollowsRules(xs, a);
    }
    if Rules(xs) && MayFollow(xs, a) {
      RulesExtend(xs, a);
    }
  }

  lemma FollowsRules(xs: seq<Attribute>, a: Attribute)
    requires Rules(xs + [a])
    ensures MayFollow(xs, a)
  {
    hide LengthOk;
    var ys := xs + [a];
    assert LengthOk(ys[|xs|]);
    forall i | 0 <= i < |xs|
      ensures xs[i].typ != FINGERPRINT && (xs[i].typ == MESSAGE_INTEGRITY ==> a.typ == FINGERPRINT)
    {
      assert ys[i] == xs[i] && ys[|xs|] == a;
    }
    LastValueIsLast(xs, FINGERPRINT);
    LastValueIsLast(xs, MESSAGE_INTEGRITY);
  }

  lemma RulesExtend(xs: seq<Attribute>, a: Attribute)
    requires Rules(xs) && MayFollow(xs, a)
    ensures Rules(xs + [a])
  {
    hide LengthOk;
    LastValueIsLast(xs, FINGERPRINT);
    LastValueIsLast(xs, MESSAGE_INTEGRITY);
    var ys := xs + [a];
    forall i, j | 0 <= i < j < |ys| && ys[i].typ == MESSAGE_INTEGRITY
      ensures ys[j].typ == FINGERPRINT
    {
      assert ys[i] == xs[i];
    }
    assert forall i :: 0 <= i < |ys| ==> ys[i] == if i < |xs| then xs[i] else a;
  }

  lemma RulesPrefix(xs: seq<Attribute>, ys: seq<Attribute>)
    requires Rules(xs + ys)
    ensures Rules(xs)
  {
    hide LengthOk;
    var zs := xs + ys;
    assert forall i :: 0 <= i < |xs| ==> xs[i] == zs[i];
    forall i, j | 0 <= i < j < |xs| && xs[i].typ == MESSAGE_INTEGRITY
      ensures xs[j].typ == FINGERPRINT
    {
      assert zs[i] == xs[i] && zs[j] == xs[j];
    }
  }

  // ---- header -----------------------------------------------------------------------------------

  predicate IsStun(s: seq<byte>) {
    |s| >= 20 && s[0] < 3 && s[4..8] == MAGIC_COOKIE
  }

  predicate HeaderOk(s: seq<byte>) {
    IsStun(s) && Get2(s, 2) == |s| - 20 && |s| % 4 == 0
  }

  function ClassOf(hi: byte, lo: byte): Class {
    var bits := ((hi & 1) << 1) | ((lo & 0x10) >> 4);
    if bits == 0 then Request else if bits == 1 then Indication
    else if bits == 2 then SuccessResponse else ErrorResponse
  }

  function ClassBits(k: Class): bv16 {
    match k
    case Request => 0
    case Indication => 1
    case SuccessResponse => 2
    case ErrorResponse => 3
  }

  function MethodOf(hi: byte, lo: byte): bv16 {
    var t := (hi as bv16 << 8) | lo as bv16;
    (t & 0x000f) | ((t & 0x00e0) >> 1) | ((t & 0x3E00) >> 2)
  }

  /** Class and method interleaved into the message type, as Serialize does it. */
  function TypeField(k: Class, m: bv16): bv16 {
    ((m & 0x0f80) << 2) | ((m & 0x0070) << 1) | (m & 0x000f) | ((ClassBits(k) & 2) << 7) | ((ClassBits(k) & 1) << 4)
  }

  function High(t: bv16): byte { ((t >> 8) & 0xFF) as byte }
  function Low(t: bv16): byte { (t & 0xFF) as byte }

  /** The two interleavings are inverse on twelve-bit methods, and the demultiplexing test keeps few of them. */
  lemma TypeFieldRoundTrip(k: Class, m: bv16)
    ensures m < 0x1000 ==> ClassOf(High(TypeField(k, m)), Low(TypeField(k, m))) == k
    ensures m < 0x1000 ==> MethodOf(High(TypeField(k, m)), Low(TypeField(k, m))) == m
    ensures m < 0x1000 ==> (High(TypeField(k, m)) < 3 <==> m < 0x80 || (m < 0x100 && (k == Request || k == Indication)))
  {
  }

  // ---- messages ---------------------------------------------------------------------------------

  datatype Fields = Fields(username: seq<byte>, priority: bv32, iceControlling: bv64, iceControlled: bv64,
                           useCandidate: bool, errorCode: int)

  const NO_FIELDS := Fields([], 0, 0, 0, false, 0)

  function Text(o: Option<seq<byte>>): seq<byte> {
    if o.Some? then o.value else []
  }

  function Word32(o: Option<seq<byte>>): bv32 {
    if o.Some? && |o.value| >= 4 then Get4(o.value, 0) else 0
  }

  function Word64(o: Option<seq<byte>>): bv64 {
    if o.Some? && |o.value| >= 8 then Get8(o.value, 0) else 0
  }

  function Code(o: Option<seq<byte>>): int {
    if o.Some? && |o.value| >= 4 then o.value[2] as int * 100 + o.value[3] as int else 0
  }

  /** Each field holds its last occurrence, or zero. */
  function FieldsOf(xs: seq<Attribute>): Fields {
    Fields(Text(LastValue(xs, USERNAME)), Word32(LastValue(xs, PRIORITY)), Word64(LastValue(xs, ICE_CONTROLLING)),
           Word64(LastValue(xs, ICE_CONTROLLED)), Has(xs, USE_CANDIDATE), Code(LastValue(xs, ERROR_CODE)))
  }

  /** What Parse hands on: `integrity` is the offset of the MESSAGE-INTEGRITY value. */
  datatype Packet = Packet(klass: Class, msgMethod: bv16, tid: seq<byte>, fields: Fields,
                           integrity: Option<nat>, fingerprint: bool)

  /** The CRC covers everything before the eight octets of a FINGERPRINT. */
  predicate FingerprintOk(s: seq<byte>, xs: seq<Attribute>) {
    Has(xs, FINGERPRINT) ==>
      |s| >= 8 && Word32(LastValue(xs, FINGERPRINT)) == Crc32.Xor(Crc32.Crc(s[..|s| - 8]), FINGERPRINT_XOR)
  }

  /** `s` is a well-formed message carrying exactly the attributes `xs`. */
  predicate IsMessage(s: seq<byte>, xs: seq<Attribute>) {
    HeaderOk(s) && s[20..] == Wire(xs) && Rules(xs) && FingerprintOk(s, xs)
  }

  function IntegrityOffset(s: seq<byte>, xs: seq<Attribute>): int {
    |s| - 20 - (if Has(xs, FINGERPRINT) then 8 else 0)
  }

  function PacketOf(s: seq<byte>, xs: seq<Attribute>): Packet
    requires |s| >= 20
  {
    var off := IntegrityOffset(s, xs);
    Packet(ClassOf(s[0], s[1]), MethodOf(s[0], s[1]), s[8..20], FieldsOf(xs),
           if Has(xs, MESSAGE_INTEGRITY) && off >= 0 then Some(off) else None, Has(xs, FINGERPRINT))
  }

  function Parsed(s: seq<byte>): Option<Packet> {
    if !HeaderOk(s) then None
    else match Decode(s[20..])
      case None => None
      case Some(xs) => if Rules(xs) && FingerprintOk(s, xs) then Some(PacketOf(s, xs)) else None
  }

  lemma NotStun(s: seq<byte>)
    requires !IsStun(s)
    ensures Parsed(s).None?
  {
  }

  /** Parsing accepts exactly the messages of the grammar, and reads the one attribute list there is. */
  lemma ParsedIsGrammar(s: seq<byte>)
    ensures Parsed(s).Some? <==> exists xs: seq<Attribute> :: IsMessage(s, xs)
    ensures forall xs: seq<Attribute> :: IsMessage(s, xs) ==> Parsed(s) == Some(PacketOf(s, xs))
  {
    hide Rules, FingerprintOk, PacketOf;
    if Parsed(s).Some? {
      WireDecode(s[20..]);
      assert IsMessage(s, Decode(s[20..]).value);
    }
    forall xs: seq<Attribute> | IsMessage(s, xs)
      ensures Parsed(s) == Some(PacketOf(s, xs))
    {
      DecodeWire(xs);
    }
  }

  // ---- where the two trailing attributes sit ----------------------------------------------------

  lemma SplitLast(xs: seq<Attribute>)
    requires xs != []
    ensures Wire(xs) == Wire(xs[..|xs| - 1]) + xs[|xs| - 1].Wire()
  {
    hide Attr.Wire, Wire;
    WireSnoc(xs[..|xs| - 1], xs[|xs| - 1]);
    assert xs == xs[..|xs| - 1] + [xs[|xs| - 1]];
  }

  lemma LastIs(xs: seq<Attribute>, t: int)
    requires Rules(xs) && Has(xs, t) && (t == FINGERPRINT || (t == MESSAGE_INTEGRITY && !Has(xs, FINGERPRINT)))
    ensures xs != [] && xs[|xs| - 1].typ == t && LastValue(xs, t) == Some(xs[|xs| - 1].value)
    ensures |xs[|xs| - 1].value| == if t == FINGERPRINT then 4 else 20
  {
    LastValueIsLast(xs, t);
    LastValueIsLast(xs, FINGERPRINT);
    assert LengthOk(xs[|xs| - 1]);
  }

  /** An accepted FINGERPRINT is the final eight octets: its fixed header and the checksum. */
  lemma FingerprintAt(s: seq<byte>, xs: seq<Attribute>)
    requires IsMessage(s, xs) && Has(xs, FINGERPRINT)
    ensures |s| >= 28 && s[|s| - 8..|s| - 4] == Put2(FINGERPRINT) + Put2(4)
    ensures LastValue(xs, FINGERPRINT) == Some(s[|s| - 4..])
  {
    hide Wire, Put2, Rules, LastValue, FingerprintOk;
    LastIs(xs, FINGERPRINT);
    SplitLast(xs);
    TailParts(s, Wire(xs[..|xs| - 1]), Put2(FINGERPRINT) + Put2(4), xs[|xs| - 1].value);
  }

  lemma TailParts(s: seq<byte>, before: seq<byte>, head: seq<byte>, value: seq<byte>)
    requires |s| >= 20 && |head| == 4 && s[20..] == before + (head + value)
    ensures s[|s| - |value| - 4..|s| - |value|] == head && s[|s| - |value|..] == value
    ensures |s| == 20 + |before| + 4 + |value|
  {
    var t := s[20..];
    assert t[|before|..|before| + 4] == head && t[|before| + 4..] == value;
  }

  /** An accepted MESSAGE-INTEGRITY ends at the end of the message, or right before the FINGERPRINT. */
  lemma IntegrityAt(s: seq<byte>, xs: seq<Attribute>, off: int)
    requires IsMessage(s, xs) && Has(xs, MESSAGE_INTEGRITY) && off == IntegrityOffset(s, xs)
    ensures off >= 24 && s[off - 4..off] == Put2(MESSAGE_INTEGRITY) + Put2(20)
    ensures LastValue(xs, MESSAGE_INTEGRITY) == Some(s[off..off + 20])
  {
    hide Wire, Put2, LengthOk, FingerprintOk, Rules, LastValue;
    if Has(xs, FINGERPRINT) {
      FingerprintAt(s, xs);
      var b, ys := BeforeFingerprint(s, xs);
      IntegrityLast(b, ys);
      Slices(s, b);
    } else {
      IntegrityLast(s, xs);
      assert s[|s| - 20..] == s[|s| - 20..|s|];
    }
  }

  lemma BeforeFingerprint(s: seq<byte>, xs: seq<Attribute>) returns (b: seq<byte>, ys: seq<Attribute>)
    requires IsMessage(s, xs) && Has(xs, FINGERPRINT)
    ensures |s| >= 28 && b == s[..|s| - 8] && b[20..] == Wire(ys) && Rules(ys)
    ensures !Has(ys, FINGERPRINT) && forall t :: t != FINGERPRINT ==> LastValue(ys, t) == LastValue(xs, t)
  {
    hide Wire, Put2, LengthOk, FingerprintOk, Rules;
    var z := xs[|xs| - 1];
    ys := xs[..|xs| - 1];
    b := s[..|s| - 8];
    FingerprintAt(s, xs);
    LastIs(xs, FINGERPRINT);
    assert xs == ys + [z];
    RulesSnoc(ys, z);
    SplitLast(xs);
    DropTail(s, Wire(ys), z.Wire());
  }

  lemma Slices(s: seq<byte>, b: seq<byte>)
    requires |s| >= 52 && b == s[..|s| - 8]
    ensures b[|b| - 24..|b| - 20] == s[|s| - 32..|s| - 28] && b[|b| - 20..] == s[|s| - 28..|s| - 8]
  {
  }

  lemma DropTail(s: seq<byte>, before: seq<byte>, tail: seq<byte>)
    requires |s| >= 20 && s[20..] == before + tail
    ensures s[..|s| - |tail|][20..] == before
  {
  }

  lemma IntegrityLast(s: seq<byte>, xs: seq<Attribute>)
    requires |s| >= 20 && s[20..] == Wire(xs) && Rules(xs) && Has(xs, MESSAGE_INTEGRITY) && !Has(xs, FINGERPRINT)
    ensures |s| >= 44 && s[|s| - 24..|s| - 20] == Put2(MESSAGE_INTEGRITY) + Put2(20)
    ensures LastValue(xs, MESSAGE_INTEGRITY) == Some(s[|s| - 20..])
  {
    hide Wire, Put2, Rules, LastValue;
    LastIs(xs, MESSAGE_INTEGRITY);
    SplitLast(xs);
    TailParts(s, Wire(xs[..|xs| - 1]), Put2(MESSAGE_INTEGRITY) + Put2(20), xs[|xs| - 1].value);
  }

  // ---- error detection --------------------------------------------------------------------------

  predicate AcceptedWithFingerprint(s: seq<byte>) {
    Parsed(s).Some? && Parsed(s).value.fingerprint
  }

  lemma FingerprintTail(s: seq<byte>)
    requires AcceptedWithFingerprint(s)
    ensures |s| >= 28 && s[|s| - 8..|s| - 4] == Put2(FINGERPRINT) + Put2(4)
    ensures s[|s| - 4..] == Put4(Crc32.Xor(Crc32.Crc(s[..|s| - 8]), FINGERPRINT_XOR))
  {
    hide Crc32.Xor, Crc32.Crc, Put4, Put2, Wire, Rules;
    ParsedIsGrammar(s);
    var xs :| IsMessage(s, xs);
    FingerprintAt(s, xs);
    Get4Determines(s[|s| - 4..]);
  }

  /** No change confined to four adjacent octets turns one accepted, fingerprinted message into another. */
  lemma BurstIsVisible(s: seq<byte>, t: seq<byte>, k: nat)
    requires AcceptedWithFingerprint(s) && AcceptedWithFingerprint(t) && |s| == |t| && k + 4 <= |s|
    requires s[..k] == t[..k] && s[k + 4..] == t[k + 4..]
    ensures s == t
  {
    hide *;
    var n := |s| - 8;
    FingerprintTail(s);
    FingerprintTail(t);
    if k >= n {
      HeadKept(s, t, n, k);
    } else {
      TailKept(s, t, k + 4, n + 4);
      Get4OfPut4(Crc32.Xor(Crc32.Crc(s[..n]), FINGERPRINT_XOR), Crc32.Xor(Crc32.Crc(t[..n]), FINGERPRINT_XOR));
      Crc32.XorCancel(Crc32.Crc(s[..n]), Crc32.Crc(t[..n]), FINGERPRINT_XOR);
      CoveredBurst(s, t, k, n);
    }
    EqualInParts(s, t, n, n + 4);
  }

  lemma EqualInParts(s: seq<byte>, t: seq<byte>, i: nat, j: nat)
    requires i <= j <= |s| == |t| && s[..i] == t[..i] && s[i..j] == t[i..j] && s[j..] == t[j..]
    ensures s == t
  {
    assert s == s[..i] + s[i..j] + s[j..];
    assert t == t[..i] + t[i..j] + t[j..];
  }

  /** A change that begins in the covered part is seen there, even if it runs on into the FINGERPRINT. */
  lemma CoveredBurst(s: seq<byte>, t: seq<byte>, k: nat, n: nat)
    requires |s| == |t| == n + 8 && k < n && n >= 20 && s[..k] == t[..k] && s[k + 4..] == t[k + 4..]
    requires Crc32.Crc(s[..n]) == Crc32.Crc(t[..n])
    ensures s[..n] == t[..n]
  {
    hide *;
    var j := if k <= n - 4 then k else n - 4;
    HeadKept(s, t, j, k);
    HeadKept(s[..n], s, j, n);
    HeadKept(t[..n], t, j, n);
    if k <= n - 4 {
      SliceShift(s, k + 4, 0, n - 4 - k);
      SliceShift(t, k + 4, 0, n - 4 - k);
      assert s[..n][j + 4..] == s[j + 4..n] && t[..n][j + 4..] == t[j + 4..n];
    }
    Crc32.BurstDetected(s[..n], t[..n], j);
  }

  lemma Get4OfPut4(a: bv32, b: bv32)
    requires Put4(a) == Put4(b)
    ensures a == b
  {
    GetPut4(a);
    GetPut4(b);
  }

  /** In particular, no single-octet change goes unnoticed. */
  lemma SingleByteIsVisible(s: seq<byte>, i: nat, b: byte)
    requires AcceptedWithFingerprint(s) && i < |s| && b != s[i]
    ensures !AcceptedWithFingerprint(s[i := b])
  {
    hide AcceptedWithFingerprint;
    var t := s[i := b];
    if AcceptedWithFingerprint(t) {
      FingerprintTail(s);
      var k := if i + 4 <= |s| then i else |s| - 4;
      assert s[..k] == t[..k] && s[k + 4..] == t[k + 4..];
      assert t[i] == b;
      BurstIsVisible(s, t, k);
    }
  }
}
