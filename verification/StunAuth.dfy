/** What message integrity guarantees: which keys and which digests pass, and that FINGERPRINT does not matter to it. */
module StunAuth {
  import opened Bytes
  import opened StunGrammar
  import opened StunMessage
  import Crc32

  // ---- which keys pass --------------------------------------------------------------------------

  /**
   * A serialised request or indication is authentic exactly under the fragments its username begins with and the
   * keys that give its text the digest of its own password; under any other it is unauthorised.
   */
  lemma SentAuthenticates(o: Outgoing, pad: seq<byte>, local: seq<byte>, key: seq<byte>, hmac: Hmac)
    requires o.Valid() && PadFits(o, pad) && Recognised(o.klass, o.msgMethod) && o.password != []
    requires (o.klass == Request || o.klass == Indication) && o.fields.username != []
    ensures var s, p := MessageBytes(o, pad, hmac), Sent(o, pad);
            && Parsed(s) == Some(p) && IntegrityFits(s, p)
            && CheckAuth(s, p, local, key, hmac)
               == if PrefixOk(o.fields.username, local) && hmac(key, Signed(o, pad)) == hmac(o.password, Signed(o, pad))
                  then OK else Unauthorized
  {
    hide *;
    SentDigest(o, pad, hmac);
    CheckedAgainst(MessageBytes(o, pad, hmac), Sent(o, pad), local, key, hmac);
  }

  lemma SentDigest(o: Outgoing, pad: seq<byte>, hmac: Hmac)
    requires o.Valid() && PadFits(o, pad) && Recognised(o.klass, o.msgMethod) && o.password != []
    requires o.klass == Request || o.klass == Indication
    ensures var s, p := MessageBytes(o, pad, hmac), Sent(o, pad);
            && Parsed(s) == Some(p) && p.klass == o.klass && p.fields.username == o.fields.username
            && p.integrity.Some? && IntegrityFits(s, p)
            && var off := p.integrity.value;
               && AuthInput(s, off) == Signed(o, pad) && s[off..off + 20] == hmac(o.password, Signed(o, pad))
  {
    hide MessageBytes, Parsed, AuthInput, Signed, Size, ErrorValue, Code;
    RoundTrip(o, pad, hmac);
    SentVerifies(o, pad, hmac);
    SignedIsHashed(o, pad, hmac);
  }

  lemma CheckedAgainst(s: seq<byte>, p: Packet, local: seq<byte>, key: seq<byte>, hmac: Hmac)
    requires IntegrityFits(s, p) && p.integrity.Some? && p.fields.username != []
    requires p.klass == Request || p.klass == Indication
    ensures var off := p.integrity.value;
            CheckAuth(s, p, local, key, hmac)
            == if PrefixOk(p.fields.username, local) && s[off..off + 20] == hmac(key, AuthInput(s, off)) then OK
               else Unauthorized
  {
    hide PrefixOk, AuthInput;
  }

  // ---- which digests pass -----------------------------------------------------------------------

  lemma WireWithDigest(s: seq<byte>, ws: seq<Attribute>, m: Attribute, v: seq<byte>, rest: seq<byte>)
    requires |s| >= 20 && s[20..] == Wire(ws) + (m.Wire() + rest)
    requires m.typ == MESSAGE_INTEGRITY && |m.value| == 20 && |v| == 20
    ensures var off := 24 + |Wire(ws)|;
            && off + 20 <= |s|
            && Patch(s, off, v)[20..] == Wire(ws) + (Attr(MESSAGE_INTEGRITY, v, []).Wire() + rest)
  {
    hide Wire, Put2;
    var head := Put2(MESSAGE_INTEGRITY) + Put2(20);
    assert m.Wire() == head + m.value && Attr(MESSAGE_INTEGRITY, v, []).Wire() == head + v;
    SliceReplaced(s, Wire(ws) + head, m.value, v, rest);
  }

  lemma SliceReplaced(s: seq<byte>, before: seq<byte>, x: seq<byte>, v: seq<byte>, rest: seq<byte>)
    requires |s| >= 20 && |x| == |v| && s[20..] == before + x + rest
    ensures |s| == 20 + |before| + |x| + |rest| && Patch(s, 20 + |before|, v)[20..] == before + v + rest
  {
    var t := Patch(s, 20 + |before|, v);
    assert s == s[..20] + s[20..];
    assert t == s[..20] + (before + v + rest);
  }

  /** The attributes around a digest: nothing but a FINGERPRINT comes behind it. */
  ghost predicate Around(ws: seq<Attribute>, tail: seq<Attribute>) {
    && Rules(ws) && !Has(ws, MESSAGE_INTEGRITY) && !Has(ws, FINGERPRINT)
    && (tail == [] || (|tail| == 1 && tail[0].typ == FINGERPRINT && |tail[0].value| == 4))
  }

  predicate IsDigest(a: Attribute) {
    a.typ == MESSAGE_INTEGRITY && |a.value| == 20
  }

  lemma SplitDigest(xs: seq<Attribute>) returns (ws: seq<Attribute>, m: Attribute, tail: seq<Attribute>)
    requires Rules(xs) && Has(xs, MESSAGE_INTEGRITY)
    ensures xs == ws + [m] + tail && IsDigest(m) && Around(ws, tail) && (tail != [] <==> Has(xs, FINGERPRINT))
  {
    hide Rules, LastValue, LengthOk;
    var ys := xs;
    tail := [];
    if Has(xs, FINGERPRINT) {
      LastIs(xs, FINGERPRINT);
      ys, tail := xs[..|xs| - 1], [xs[|xs| - 1]];
      assert xs == ys + tail;
      RulesSnoc(ys, tail[0]);
      LastValueSnoc(ys, tail[0], MESSAGE_INTEGRITY);
    } else {
      assert xs == ys + tail;
    }
    LastIs(ys, MESSAGE_INTEGRITY);
    ws, m := ys[..|ys| - 1], ys[|ys| - 1];
    assert ys == ws + [m];
    RulesSnoc(ws, m);
  }

  /** Any digest fits there, and nothing else reads differently. */
  lemma JoinDigest(ws: seq<Attribute>, a: Attribute, tail: seq<Attribute>)
    requires Around(ws, tail) && IsDigest(a)
    ensures Rules(ws + [a] + tail) && Has(ws + [a] + tail, MESSAGE_INTEGRITY)
    ensures forall t :: t != MESSAGE_INTEGRITY ==> LastValue(ws + [a] + tail, t) == LastValue(ws + tail, t)
  {
    hide Rules, LastValue;
    var b := ws + [a];
    RulesSnoc(ws, a);
    LastValueSnoc(ws, a, FINGERPRINT);
    LastValueSnoc(ws, a, MESSAGE_INTEGRITY);
    if tail == [] {
      assert b + tail == b && ws + tail == ws;
      forall t | t != MESSAGE_INTEGRITY
        ensures LastValue(b, t) == LastValue(ws, t)
      {
        LastValueSnoc(ws, a, t);
      }
    } else {
      var f := tail[0];
      assert tail == [f];
      RulesSnoc(b, f);
      LastValueSnoc(b, f, MESSAGE_INTEGRITY);
      forall t | t != MESSAGE_INTEGRITY
        ensures LastValue(b + [f], t) == LastValue(ws + [f], t)
      {
        LastValueSnoc(b, f, t);
        LastValueSnoc(ws, a, t);
        LastValueSnoc(ws, f, t);
      }
    }
  }

  lemma WireAround(ws: seq<Attribute>, a: Attribute, tail: seq<Attribute>)
    requires Around(ws, tail)
    ensures Wire(ws + [a] + tail) == Wire(ws) + (a.Wire() + Wire(tail)) && |Wire(tail)| == if tail == [] then 0 else 8
  {
    hide Rules, Has, Wire, Attr.Wire;
    WireConcat(ws + [a], tail);
    WireSnoc(ws, a);
    Associate(Wire(ws), a.Wire(), Wire(tail));
    if tail == [] {
      NoWire();
    } else {
      WireSnoc([], tail[0]);
      NoWire();
      assert [] + [tail[0]] == tail && [] + tail[0].Wire() == tail[0].Wire();
    }
  }

  lemma ItsAttributes(s: seq<byte>, p: Packet) returns (xs: seq<Attribute>)
    requires Parsed(s) == Some(p)
    ensures IsMessage(s, xs) && p == PacketOf(s, xs) && HeaderOk(s) && s[20..] == Wire(xs) && Rules(xs)
  {
    hide Rules, FingerprintOk, Wire, PacketOf, Decode;
    ParsedIsGrammar(s);
    xs :| IsMessage(s, xs);
  }

  /** The same header, and attributes that read the same but for the digest. */
  lemma SamePacket(s: seq<byte>, t: seq<byte>, xs: seq<Attribute>, ys: seq<Attribute>)
    requires HeaderOk(s) && |t| == |s| && t[..20] == s[..20] && t[20..] == Wire(ys) && Rules(ys)
    requires Has(xs, MESSAGE_INTEGRITY) == Has(ys, MESSAGE_INTEGRITY)
    requires forall k :: k != MESSAGE_INTEGRITY ==> LastValue(ys, k) == LastValue(xs, k)
    ensures Parsed(t) == if FingerprintOk(t, ys) then Some(PacketOf(s, xs)) else None
    ensures !Has(xs, FINGERPRINT) ==> FingerprintOk(t, ys)
  {
    hide Rules, LastValue, Wire, Crc32.Crc, Crc32.Xor, Word32, Get2;
    SameHeader(s, t);
    hide HeaderOk, ClassOf, MethodOf;
    DecodeWire(ys);
    hide Decode;
  }

  lemma SameHeader(s: seq<byte>, t: seq<byte>)
    requires HeaderOk(s) && |t| == |s| && t[..20] == s[..20]
    ensures HeaderOk(t) && t[0] == s[0] && t[1] == s[1] && t[8..20] == s[8..20]
  {
    hide Get2;
    HeadKept(s, t, 4, 20);
    HeadKept(s, t, 8, 20);
    Get2Local(s, 2);
    Get2Local(t, 2);
    assert forall u: seq<byte> | |u| >= 20 :: u[2..4] == u[..20][2..4] && u[4..8] == u[..20][4..8];
    assert s[0] == s[..20][0] && s[1] == s[..20][1] && t[0] == t[..20][0] && t[1] == t[..20][1];
  }

  /** With any other digest in its place, an accepted message says the same, unless its FINGERPRINT gives it away. */
  lemma DigestReplaced(s: seq<byte>, p: Packet, v: seq<byte>)
    requires Parsed(s) == Some(p) && p.integrity.Some? && |v| == 20
    ensures IntegrityFits(s, p)
    ensures var t := Patch(s, p.integrity.value, v);
            Parsed(t).Some? || !p.fingerprint ==> Parsed(t) == Some(p)
  {
    hide Parsed, IsMessage, HeaderOk, Wire, Attr.Wire, Patch, Rules, LastValue, Around, FingerprintOk, FieldsOf,
         ClassOf, MethodOf;
    ParsedFits(s, p);
    var xs := ItsAttributes(s, p);
    var ws, m, tail := SplitDigest(xs);
    var a := Attr(MESSAGE_INTEGRITY, v, []);
    var t := Patch(s, p.integrity.value, v);
    JoinDigest(ws, m, tail);
    JoinDigest(ws, a, tail);
    WireAround(ws, m, tail);
    WireAround(ws, a, tail);
    WireWithDigest(s, ws, m, v, Wire(tail));
    PatchParts(s, p.integrity.value, v);
    HeadKept(s, t, 20, p.integrity.value);
    SamePacket(s, t, xs, ws + [a] + tail);
  }

  /** Under every fragment and key one digest passes at most: any other in its place is unauthorised. */
  lemma OneDigest(s: seq<byte>, p: Packet, v: seq<byte>, local: seq<byte>, key: seq<byte>, hmac: Hmac)
    requires Parsed(s) == Some(p) && p.integrity.Some? && |v| == 20 && IntegrityFits(s, p)
    requires CheckAuth(s, p, local, key, hmac) == OK
    ensures var off, t := p.integrity.value, Patch(s, p.integrity.value, v);
            && (Parsed(t).Some? || !p.fingerprint ==> Parsed(t) == Some(p))
            && CheckAuth(t, p, local, key, hmac) == if v == s[off..off + 20] then OK else Unauthorized
  {
    hide Parsed, PrefixOk, Put2;
    DigestReplaced(s, p, v);
    var off, t := p.integrity.value, Patch(s, p.integrity.value, v);
    PatchParts(s, off, v);
    SameText(s, t, off);
  }

  lemma SameText(s: seq<byte>, t: seq<byte>, off: nat)
    requires 24 <= off <= |s| == |t| && off < 0x10000 && t[..off] == s[..off]
    ensures AuthInput(t, off) == AuthInput(s, off)
  {
    hide Put2;
    assert forall u: seq<byte> | |u| >= off :: u[..2] == u[..off][..2] && u[4..off - 4] == u[..off][4..off - 4];
  }

  /** In particular, one changed octet of the digest of an authentic message makes it unauthorised. */
  lemma ChangedDigest(s: seq<byte>, p: Packet, i: nat, b: byte, local: seq<byte>, key: seq<byte>, hmac: Hmac)
    requires Parsed(s) == Some(p) && p.integrity.Some? && IntegrityFits(s, p) && i < 20
    requires b != s[p.integrity.value + i] && CheckAuth(s, p, local, key, hmac) == OK
    ensures CheckAuth(s[p.integrity.value + i := b], p, local, key, hmac) == Unauthorized
    ensures !p.fingerprint ==> Parsed(s[p.integrity.value + i := b]) == Some(p)
  {
    hide Parsed, CheckAuth;
    var off := p.integrity.value;
    var d := s[off..off + 20];
    assert d[i := b][i] != d[i];
    OneDigest(s, p, d[i := b], local, key, hmac);
    OneOctet(s, off, i, b);
  }

  lemma OneOctet(s: seq<byte>, off: nat, i: nat, b: byte)
    requires i < 20 && off + 20 <= |s|
    ensures Patch(s, off, s[off..off + 20][i := b]) == s[off + i := b]
  {
    var t := Patch(s, off, s[off..off + 20][i := b]);
    forall k | 0 <= k < |s|
      ensures t[k] == s[off + i := b][k]
    {
      if off <= k < off + 20 {
        assert t[k] == s[off..off + 20][i := b][k - off];
      }
    }
  }

  /** Without FINGERPRINT the text that is hashed is the message itself, up to the attribute. */
  lemma PlainText(s: seq<byte>, p: Packet)
    requires Parsed(s) == Some(p) && p.integrity.Some? && !p.fingerprint
    ensures IntegrityFits(s, p) && p.integrity.value == |s| - 20 && AuthInput(s, |s| - 20) == s[..|s| - 24]
  {
    hide Parsed, Put2, Get2;
    ParsedFits(s, p);
    Get2Local(s, 2);
    Get2Determines(s[2..4], |s| - 20);
    assert s[..|s| - 24] == s[..2] + s[2..4] + s[4..|s| - 24];
  }

  // ---- FINGERPRINT does not matter to it --------------------------------------------------------

  /** The message without its FINGERPRINT, its length corrected. */
  function Stripped(s: seq<byte>): seq<byte>
    requires 28 <= |s| < 0x10000
  {
    s[..2] + Put2(|s| - 28) + s[4..|s| - 8]
  }

  lemma StrippedSlices(s: seq<byte>)
    requires 28 <= |s| < 0x10000
    ensures var t := Stripped(s);
            |t| == |s| - 8 && t[..2] == s[..2] && t[2..4] == Put2(|s| - 28) && t[4..] == s[4..|s| - 8]
  {
    hide Put2;
  }

  /** Behind the length field nothing has moved. */
  lemma Unmoved(s: seq<byte>, t: seq<byte>, i: nat, j: nat)
    requires 4 <= i <= j <= |t| <= |s| && t[4..] == s[4..|t|]
    ensures t[i..j] == s[i..j]
  {
    forall k | i <= k < j
      ensures t[k] == s[k]
    {
      assert t[4..][k - 4] == s[4..|t|][k - 4];
    }
  }

  lemma StrippedParts(s: seq<byte>)
    requires 28 <= |s| < 0x10000 && HeaderOk(s)
    ensures var t := Stripped(s);
            && |t| == |s| - 8 && HeaderOk(t) && t[0] == s[0] && t[1] == s[1] && t[8..20] == s[8..20]
            && t[20..] == s[..|s| - 8][20..]
  {
    hide Put2, Get2, Stripped;
    var t := Stripped(s);
    StrippedSlices(s);
    Get2Local(t, 2);
    Unmoved(s, t, 4, 8);
    Unmoved(s, t, 8, 20);
    Unmoved(s, t, 20, |t|);
    assert t[0] == t[..2][0] && t[1] == t[..2][1];
    assert t[20..] == t[20..|t|] && s[..|s| - 8][20..] == s[20..|s| - 8];
  }

  /** Taking the FINGERPRINT off an accepted message changes nothing else about it. */
  lemma StrippedParses(s: seq<byte>, p: Packet)
    requires Parsed(s) == Some(p) && p.fingerprint
    ensures 28 <= |s| && (|s| < 0x10000 ==> Parsed(Stripped(s)) == Some(p.(fingerprint := false)))
  {
    hide Parsed, HeaderOk, IsMessage, Wire, Rules, LastValue, FieldsOf, ClassOf, MethodOf, Stripped;
    ParsedFits(s, p);
    var xs := ItsAttributes(s, p);
    var b, ys := BeforeFingerprint(s, xs);
    if |s| < 0x10000 {
      StrippedParts(s);
      Accepted(Stripped(s), ys);
      SameFields(xs, ys);
    }
  }

  lemma SameFields(xs: seq<Attribute>, ys: seq<Attribute>)
    requires forall t :: t != FINGERPRINT ==> LastValue(ys, t) == LastValue(xs, t)
    ensures FieldsOf(ys) == FieldsOf(xs)
  {
    hide LastValue, Text, Word32, Word64, Code;
  }

  lemma Accepted(t: seq<byte>, ys: seq<Attribute>)
    requires HeaderOk(t) && t[20..] == Wire(ys) && Rules(ys) && !Has(ys, FINGERPRINT)
    ensures Parsed(t) == Some(PacketOf(t, ys))
  {
    hide Rules, PacketOf, Wire;
    ParsedIsGrammar(t);
    assert IsMessage(t, ys);
  }

  /**
   * So what is hashed is the plain text in front of the attribute of a message that ends with it, and the verdict
   * is the same with and without FINGERPRINT.
   */
  lemma StrippedAuthenticates(s: seq<byte>, p: Packet, local: seq<byte>, key: seq<byte>, hmac: Hmac)
    requires Parsed(s) == Some(p) && p.fingerprint && p.integrity.Some? && |s| < 0x10000
    ensures 28 <= |s| && Parsed(Stripped(s)) == Some(p.(fingerprint := false)) && IntegrityFits(s, p)
    ensures var t, q := Stripped(s), p.(fingerprint := false);
            && IntegrityFits(t, q) && p.integrity.value == |t| - 20
            && AuthInput(s, |t| - 20) == AuthInput(t, |t| - 20) == t[..|t| - 24]
            && CheckAuth(t, q, local, key, hmac) == CheckAuth(s, p, local, key, hmac)
  {
    hide Parsed, CheckAuth, Stripped, AuthInput, Get2;
    StrippedParses(s, p);
    ParsedFits(s, p);
    StrippedText(s);
    SameVerdict(s, Stripped(s), p, p.(fingerprint := false), local, key, hmac);
  }

  lemma SameVerdict(s: seq<byte>, t: seq<byte>, p: Packet, q: Packet, local: seq<byte>, key: seq<byte>, hmac: Hmac)
    requires q == p.(fingerprint := q.fingerprint) && p.integrity.Some? && IntegrityFits(s, p) && IntegrityFits(t, q)
    requires var off := p.integrity.value;
             AuthInput(s, off) == AuthInput(t, off) && s[off..off + 20] == t[off..off + 20]
    ensures CheckAuth(t, q, local, key, hmac) == CheckAuth(s, p, local, key, hmac)
  {
    hide PrefixOk, AuthInput;
  }

  lemma StrippedText(s: seq<byte>)
    requires 52 <= |s| < 0x10000
    ensures var t, off := Stripped(s), |s| - 28;
            && |t| == |s| - 8 && AuthInput(s, off) == AuthInput(t, off) == t[..off - 4]
            && t[off..off + 20] == s[off..off + 20]
  {
    hide Put2, Stripped;
    var t, off := Stripped(s), |s| - 28;
    StrippedSlices(s);
    Unmoved(s, t, 4, off - 4);
    Unmoved(s, t, off, off + 20);
    assert t[..off - 4] == t[..2] + t[2..4] + t[4..off - 4];
  }
}
