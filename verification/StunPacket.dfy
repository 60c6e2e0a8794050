/** The mutable STUN packet: parsing, authentication and serialisation, step by step on byte buffers. */
module StunPackets {
  import opened Bytes
  import opened StunGrammar
  import opened StunMessage
  import opened StunWriter
  import Crc32

  // ---- the attribute scan -----------------------------------------------------------------------

  /** The scan position after an attribute, narrowed to sixteen bits as in the source. */
  function NextPosition(pos: nat, attrLength: nat): nat {
    PadTo4Bytes((pos + 4 + attrLength) % 0x10000)
  }

  /** The narrowing is harmless exactly as long as the attribute ends within 65532 octets. */
  lemma NarrowingExact(pos: nat, attrLength: nat)
    requires pos % 4 == 0 && pos < 0x10000 && attrLength < 0x10000
    ensures NextPosition(pos, attrLength) == pos + 4 + Pad4(attrLength) <==> pos + 4 + attrLength <= 0xFFFC
  {
    hide Pad4, PadTo4Bytes;
    var end, next := pos + 4 + attrLength, pos + 4 + Pad4(attrLength);
    SumOfMultiples(pos, Pad4(attrLength));
    if end <= 0xFFFC {
      SmallResidue(end);
      SameMultiple(Pad4(end), next, end);
    } else {
      NextMultiple(next);
    }
  }

  lemma SumOfMultiples(a: nat, b: nat)
    requires a % 4 == 0 && b % 4 == 0
    ensures (a + 4 + b) % 4 == 0
  {
  }

  lemma SmallResidue(n: nat)
    requires n < 0x10000
    ensures n % 0x10000 == n
  {
  }

  lemma NextMultiple(n: nat)
    requires n % 4 == 0 && n > 0xFFFC
    ensures n >= 0x10000
  {
  }

  /** Beyond that, every well-formed message throws the scan off: past its last attribute it is back in the header. */
  lemma LongMessageWraps(s: seq<byte>, xs: seq<Attribute>)
    requires IsMessage(s, xs) && |s| > 0xFFFC
    ensures xs != [] && var a := xs[|xs| - 1];
                        && |s| - |a.Wire()| >= 20 && NextPosition(|s| - |a.Wire()|, |a.value|) == |s| - 0x10000 < 20
  {
    hide *;
    MessageLength(s, xs);
    if xs == [] {
      NoWire();
    } else {
      var a := xs[|xs| - 1];
      SplitLast(xs);
      WrapsBack(|s| - |a.Wire()|, |a.value|, |s|);
    }
  }

  lemma MessageLength(s: seq<byte>, xs: seq<Attribute>)
    requires IsMessage(s, xs)
    ensures |s| == 20 + |Wire(xs)| < 0x10000 + 20 && |s| % 4 == 0
  {
    hide Get2, Wire, Rules, FingerprintOk;
  }

  lemma WrapsBack(at: nat, n: nat, len: nat)
    requires at + 4 + Pad4(n) == len && len % 4 == 0 && 0xFFFC < len < 0x10000 + 20
    ensures NextPosition(at, n) == len - 0x10000
  {
    hide Pad4, PadTo4Bytes;
    var end := at + 4 + n;
    if end < 0x10000 {
      assert end % 0x10000 == end > 0xFFFC;
    } else {
      assert end % 0x10000 == end - 0x10000;
      SameMultiple(Pad4(end - 0x10000), len - 0x10000, end - 0x10000);
    }
  }

  lemma SameMultiple(a: nat, b: nat, n: nat)
    requires a % 4 == 0 && b % 4 == 0 && n <= a < n + 4 && n <= b < n + 4
    ensures a == b
  {
  }

  function Prepend(xs: seq<Attribute>, rest: Option<seq<Attribute>>): Option<seq<Attribute>> {
    if rest.None? then None else Some(xs + rest.value)
  }

  /** `xs` are the attributes read so far, from a message whose header has been accepted. */
  ghost predicate Scanned(s: seq<byte>, pos: nat, xs: seq<Attribute>) {
    && 20 <= pos <= |s| <= 0xFFFC && pos % 4 == 0 && HeaderOk(s) && Rules(xs)
    && Decode(s[20..]) == Prepend(xs, Decode(s[pos..]))
  }

  /** The attribute at `pos`, padding included, lies within the message. */
  predicate AttributeFits(s: seq<byte>, pos: nat) {
    pos + 4 <= |s| && 4 + Pad4(Get2(s[pos..], 2)) <= |s| - pos
  }

  /** On aligned positions the source's unpadded length test says the same. */
  lemma UnpaddedTest(pos: nat, n: nat, len: nat)
    requires pos % 4 == 0 && len % 4 == 0
    ensures pos + 4 + n <= len <==> pos + 4 + Pad4(n) <= len
  {
  }

  /** The attribute at a scan position. */
  function AttributeAt(s: seq<byte>, pos: nat): Attribute
    requires AttributeFits(s, pos)
  {
    FirstAttr(s[pos..])
  }

  lemma AttributeParts(s: seq<byte>, pos: nat)
    requires pos + 4 <= |s|
    ensures Get2(s[pos..], 2) == Get2(s, pos + 2)
    ensures AttributeFits(s, pos) ==> var a := AttributeAt(s, pos);
              && a.typ == Get2(s, pos) && |a.value| == Get2(s, pos + 2)
              && pos + 4 + |a.value| <= |s| && a.value == s[pos + 4..pos + 4 + |a.value|]
  {
    hide Get2;
    Get2Suffix(s, pos, 0);
    Get2Suffix(s, pos, 2);
    if AttributeFits(s, pos) {
      var n := Get2(s, pos + 2);
      assert s[pos..][4..4 + n] == s[pos + 4..pos + 4 + n];
    }
  }

  lemma Get2Suffix(s: seq<byte>, pos: nat, i: nat)
    requires pos + i + 2 <= |s|
    ensures Get2(s[pos..], i) == Get2(s, pos + i)
  {
  }

  /** An attribute that runs over the end, or may not come next, makes the whole message unacceptable. */
  lemma ScanRejects(s: seq<byte>, pos: nat, xs: seq<Attribute>)
    requires Scanned(s, pos, xs) && pos + 4 <= |s|
    requires !AttributeFits(s, pos) || !MayFollow(xs, AttributeAt(s, pos))
    ensures Parsed(s).None?
  {
    hide Rules, MayFollow, Get2, FirstAttr, Pad4;
    Get2Suffix(s, pos, 2);
    var n := Get2(s, pos + 2);
    if AttributeFits(s, pos) && Decode(s[pos..]).Some? {
      var a, r := AttributeAt(s, pos), Decode(s[pos..]).value;
      AttributeParts(s, pos);
      assert r == [a] + r[1..];
      assert xs + r == (xs + [a]) + r[1..];
      if Rules(xs + r) {
        RulesPrefix(xs + [a], r[1..]);
        RulesSnoc(xs, a);
      }
    }
  }

  /** An attribute that may come next extends the scan. */
  lemma ScanAdvances(s: seq<byte>, pos: nat, xs: seq<Attribute>)
    requires Scanned(s, pos, xs) && AttributeFits(s, pos) && MayFollow(xs, AttributeAt(s, pos))
    ensures Scanned(s, NextPosition(pos, Get2(s, pos + 2)), xs + [AttributeAt(s, pos)])
    ensures NextPosition(pos, Get2(s, pos + 2)) == pos + 4 + Pad4(Get2(s, pos + 2))
    ensures NextPosition(pos, Get2(s, pos + 2)) <= |s| && NextPosition(pos, Get2(s, pos + 2)) % 4 == 0
  {
    hide Rules, MayFollow, Get2, FirstAttr;
    var a, n := AttributeAt(s, pos), Get2(s, pos + 2);
    AttributeParts(s, pos);
    RulesSnoc(xs, a);
    NarrowingExact(pos, n);
    var next := pos + 4 + Pad4(n);
    assert s[pos..][4 + Pad4(n)..] == s[next..];
    if Decode(s[next..]).Some? {
      assert xs + ([a] + Decode(s[next..]).value) == (xs + [a]) + Decode(s[next..]).value;
    }
  }

  lemma ScanComplete(s: seq<byte>, xs: seq<Attribute>)
    requires Scanned(s, |s|, xs)
    ensures Parsed(s) == if FingerprintOk(s, xs) then Some(PacketOf(s, xs)) else None
  {
    hide Rules, FingerprintOk, PacketOf;
    assert s[|s|..] == [];
    assert xs + [] == xs;
  }

  lemma HeaderRejects(s: seq<byte>)
    requires !HeaderOk(s)
    ensures Parsed(s).None?
  {
  }

  /** What one attribute changes in the packet fields. */
  function Updated(f: Fields, a: Attribute): Fields
    requires LengthOk(a)
  {
    if a.typ == USERNAME then f.(username := a.value)
    else if a.typ == PRIORITY then f.(priority := Get4(a.value, 0))
    else if a.typ == ICE_CONTROLLING then f.(iceControlling := Get8(a.value, 0))
    else if a.typ == ICE_CONTROLLED then f.(iceControlled := Get8(a.value, 0))
    else if a.typ == USE_CANDIDATE then f.(useCandidate := true)
    else if a.typ == ERROR_CODE then f.(errorCode := a.value[2] as int * 100 + a.value[3] as int)
    else f
  }

  lemma FieldsSnoc(xs: seq<Attribute>, a: Attribute)
    requires LengthOk(a)
    ensures FieldsOf(xs + [a]) == Updated(FieldsOf(xs), a)
    ensures Has(xs + [a], FINGERPRINT) == (a.typ == FINGERPRINT || Has(xs, FINGERPRINT))
    ensures Has(xs + [a], MESSAGE_INTEGRITY) == (a.typ == MESSAGE_INTEGRITY || Has(xs, MESSAGE_INTEGRITY))
    ensures a.typ == FINGERPRINT ==> Word32(LastValue(xs + [a], FINGERPRINT)) == Get4(a.value, 0)
  {
    hide LastValue, Get4, Get8;
    forall t: int
      ensures LastValue(xs + [a], t) == if a.typ == t then Some(a.value) else LastValue(xs, t)
    {
      LastValueSnoc(xs, a, t);
    }
  }

  // ---- the packet -------------------------------------------------------------------------------

  class StunPacket {
    var klass: Class
    var msgMethod: bv16
    var transactionId: seq<byte>
    var data: array?<byte>
    var size: nat
    var username: seq<byte>
    var priority: bv32
    var iceControlling: bv64
    var iceControlled: bv64
    var hasUseCandidate: bool
    var messageIntegrity: Option<nat>  // offset of the value within data
    var hasFingerprint: bool
    var xorMappedAddress: Option<Address>
    var errorCode: int
    var password: seq<byte>

    constructor (klass: Class, msgMethod: bv16, transactionId: seq<byte>, data: array?<byte>, size: nat)
      ensures this.klass == klass && this.msgMethod == msgMethod && this.transactionId == transactionId
      ensures this.data == data && this.size == size
      ensures Fields() == NO_FIELDS && messageIntegrity == None && !hasFingerprint
      ensures xorMappedAddress == None && password == []
    {
      this.klass, this.msgMethod, this.transactionId := klass, msgMethod, transactionId;
      this.data, this.size := data, size;
      username, priority, iceControlling, iceControlled, hasUseCandidate, errorCode := [], 0, 0, 0, false, 0;
      messageIntegrity, hasFingerprint, xorMappedAddress, password := None, false, None, [];
    }

    ghost function Fields(): Fields
      reads this
    {
      StunGrammar.Fields(username, priority, iceControlling, iceControlled, hasUseCandidate, errorCode)
    }

    /** What the packet says, as the grammar states it. */
    ghost function View(): Packet
      reads this
    {
      Packet(klass, msgMethod, transactionId, Fields(), messageIntegrity, hasFingerprint)
    }

    /** The state the attribute scan has reached. */
    ghost predicate AfterScan(xs: seq<Attribute>, pos: nat)
      reads this
    {
      && Fields() == FieldsOf(xs) && hasFingerprint == Has(xs, FINGERPRINT)
      && messageIntegrity == (if !Has(xs, MESSAGE_INTEGRITY) then None
                              else if Has(xs, FINGERPRINT) then (if pos >= 28 then Some(pos - 28) else None)
                              else if pos >= 20 then Some(pos - 20) else None)
    }

    /** The switch over attribute types: store the value, or refuse its length. */
    method TakeAttribute(a: Attribute, valuePos: nat) returns (ok: bool)
      modifies this
      ensures klass == old(klass) && msgMethod == old(msgMethod) && transactionId == old(transactionId)
      ensures data == old(data) && size == old(size)
      ensures ok == LengthOk(a)
      ensures ok ==> Fields() == Updated(old(Fields()), a)
      ensures ok ==> messageIntegrity == if a.typ == MESSAGE_INTEGRITY then Some(valuePos) else old(messageIntegrity)
      ensures ok ==> hasFingerprint == (a.typ == FINGERPRINT || old(hasFingerprint))
    {
      hide Get4, Get8;
      var attrLength := |a.value|;
      if a.typ == USERNAME {
        username := a.value;
      } else if a.typ == PRIORITY {
        if attrLength != 4 {
          return false;
        }
        priority := Get4(a.value, 0);
      } else if a.typ == ICE_CONTROLLING {
        if attrLength != 8 {
          return false;
        }
        iceControlling := Get8(a.value, 0);
      } else if a.typ == ICE_CONTROLLED {
        if attrLength != 8 {
          return false;
        }
        iceControlled := Get8(a.value, 0);
      } else if a.typ == USE_CANDIDATE {
        if attrLength != 0 {
          return false;
        }
        hasUseCandidate := true;
      } else if a.typ == MESSAGE_INTEGRITY {
        if attrLength != 20 {
          return false;
        }
        messageIntegrity := Some(valuePos);
      } else if a.typ == FINGERPRINT {
        if attrLength != 4 {
          return false;
        }
        hasFingerprint := true;
      } else if a.typ == ERROR_CODE {
        if attrLength < 4 {
          return false;
        }
        errorCode := a.value[2] as int * 100 + a.value[3] as int;
      }
      ok := true;
    }

    /** One attribute of the scan, if it may come next: the state follows the list of attributes read. */
    method TakeNext(a: Attribute, pos: nat, ghost xs: seq<Attribute>) returns (ok: bool)
      requires AfterScan(xs, pos) && 20 <= pos && !Has(xs, FINGERPRINT)
      requires Has(xs, MESSAGE_INTEGRITY) ==> a.typ == FINGERPRINT
      modifies this
      ensures klass == old(klass) && msgMethod == old(msgMethod) && transactionId == old(transactionId)
      ensures data == old(data) && size == old(size)
      ensures ok == LengthOk(a)
      ensures ok ==> AfterScan(xs + [a], pos + 4 + Pad4(|a.value|))
    {
      hide FieldsOf, Has, Updated, LengthOk, Pad4;
      ok := TakeAttribute(a, pos + 4);
      if ok {
        FieldsSnoc(xs, a);
        LengthsOf(a);
      }
    }

    /** At the end of the message the packet is the one its attributes give. */
    lemma ScanView(s: seq<byte>, xs: seq<Attribute>)
      requires |s| >= 20 && AfterScan(xs, |s|)
      requires klass == ClassOf(s[0], s[1]) && msgMethod == MethodOf(s[0], s[1]) && transactionId == s[8..20]
      ensures View() == PacketOf(s, xs)
    {
      hide FieldsOf, Has, ClassOf, MethodOf;
    }

    /** Every datagram, except one whose header is in order and announces 65536 octets or more: see LongMessageWraps. */
    static method Parse(data: array<byte>, len: nat) returns (p: StunPacket?)
      requires len <= data.Length && (HeaderOk(data[..len]) ==> len <= 0xFFFC)
      ensures p == null <==> Parsed(data[..len]).None?
      ensures p != null ==> fresh(p) && p.data == data && p.size == len && Parsed(data[..len]) == Some(p.View())
    {
      hide Scanned, Parsed, Has, Pad4, LastValue, Get2, Get4, Word32, FieldsOf, LengthOk, ClassOf, MethodOf,
           FirstAttr, PacketOf, NextPosition, Crc32.Xor, Crc32.Crc, StunPacket.AfterScan, StunPacket.View;
      var s := data[..len];
      if !IsStun(s) {
        HeaderRejects(s);
        return null;
      }
      var msgLength := Get2(s, 2);
      if msgLength != len - 20 || msgLength % 4 != 0 {
        HeaderRejects(s);
        return null;
      }
      ScanStarts(s);
      var packet := Begin(s, data, len);
      var pos := 20;
      var hasMessageIntegrity := false;
      var hasFingerprint := false;
      var fingerprintAttrPos := 0;
      var fingerprint: bv32 := 0;
      ghost var xs: seq<Attribute> := [];
      while pos + 4 <= len
        invariant Scanned(s, pos, xs) && 20 <= pos <= len && pos % 4 == 0 && len % 4 == 0
        invariant packet.AfterScan(xs, pos) && fresh(packet)
        invariant packet.klass == ClassOf(s[0], s[1]) && packet.msgMethod == MethodOf(s[0], s[1])
        invariant packet.transactionId == s[8..20] && packet.data == data && packet.size == len
        invariant hasMessageIntegrity == Has(xs, MESSAGE_INTEGRITY) && hasFingerprint == Has(xs, FINGERPRINT)
        invariant hasFingerprint ==> fingerprintAttrPos == pos - 8 && fingerprint == Word32(LastValue(xs, FINGERPRINT))
        decreases len - pos
      {
        var attrLength := Get2(s, pos + 2);
        AttributeParts(s, pos);
        UnpaddedTest(pos, attrLength, len);
        if pos + 4 + attrLength > len {
          ScanRejects(s, pos, xs);
          return null;
        }
        var a := AttributeAt(s, pos);
        if hasFingerprint || (hasMessageIntegrity && a.typ != FINGERPRINT) {
          ScanRejects(s, pos, xs);
          return null;
        }
        var ok := packet.TakeNext(a, pos, xs);
        if !ok {
          ScanRejects(s, pos, xs);
          return null;
        }
        FieldsSnoc(xs, a);
        ScanAdvances(s, pos, xs);
        LengthsOf(a);
        if a.typ == MESSAGE_INTEGRITY {
          hasMessageIntegrity := true;
        } else if a.typ == FINGERPRINT {
          hasFingerprint, fingerprintAttrPos, fingerprint := true, pos, Get4(a.value, 0);
        }
        pos := NextPosition(pos, attrLength);
        xs := xs + [a];
      }
      assert pos == len;  // the source's test for pos != len cannot succeed
      ScanComplete(s, xs);
      packet.ScanView(s, xs);
      if hasFingerprint {
        var crc := Crc32.GetCRC32(data, fingerprintAttrPos);
        assert data[..fingerprintAttrPos] == s[..len - 8];
        if fingerprint != Crc32.Xor(crc, FINGERPRINT_XOR) {
          return null;
        }
      }
      p := packet;
    }

    /** A packet of the header's class, method and transaction id, before any attribute. */
    static method Begin(s: seq<byte>, data: array<byte>, len: nat) returns (p: StunPacket)
      requires |s| >= 20
      ensures fresh(p) && p.data == data && p.size == len && p.AfterScan([], 20)
      ensures p.klass == ClassOf(s[0], s[1]) && p.msgMethod == MethodOf(s[0], s[1]) && p.transactionId == s[8..20]
    {
      p := new StunPacket(ClassOf(s[0], s[1]), MethodOf(s[0], s[1]), s[8..20], data, len);
    }

    /** The packet is what Parse made of the first `size` octets of `data`. */
    ghost predicate Backed()
      reads this, data
    {
      data != null && size <= data.Length && Parsed(data[..size]) == Some(View())
    }

    /**
     * The buffer is patched for hashing and restored: the result is that of section 15.4 of RFC 5389,
     * and not one octet is different afterwards.
     */
    method CheckAuthentication(localUsername: seq<byte>, localPassword: seq<byte>, hmac: Hmac)
      returns (r: Authentication)
      requires Backed() && size < 0x10000
      modifies data
      ensures data[..] == old(data[..]) && Backed()
      ensures IntegrityFits(data[..size], View())
      ensures r == CheckAuth(data[..size], View(), localUsername, localPassword, hmac)
    {
      hide Parsed, Put2, Get2, Patch;
      ghost var s := data[..size];
      ParsedFits(s, View());
      if klass == SuccessResponse || klass == ErrorResponse {
        return BadRequest;
      }
      if messageIntegrity == None || username == [] {
        return BadRequest;
      }
      var n := |localUsername|;
      if |username| <= n || username[n] != COLON || username[..n] != localUsername {
        return Unauthorized;
      }
      var at := messageIntegrity.value;
      if hasFingerprint {
        Set2Bytes(data, 2, size - 20 - 8);
      }
      PatchedInput(old(data[..]), data[..], size, at, hasFingerprint);
      var computed := hmac(localPassword, data[..at - 4]);
      if data[at..at + 20] == computed {
        r := OK;
      } else {
        r := Unauthorized;
      }
      if hasFingerprint {
        Set2Bytes(data, 2, size - 20);
        PatchUndone(old(data[..]), data[..], size);
      }
    }

    /** What the packet would serialise. */
    ghost function Out(): Outgoing
      reads this
    {
      Outgoing(klass, msgMethod, transactionId, Fields(), xorMappedAddress, password)
    }

    method CreateSuccessResponse() returns (r: StunPacket)
      requires klass == Request
      ensures fresh(r) && r.Out() == Outgoing(SuccessResponse, msgMethod, transactionId, NO_FIELDS, None, [])
    {
      r := new StunPacket(SuccessResponse, msgMethod, transactionId, null, 0);
    }

    method CreateErrorResponse(code: int) returns (r: StunPacket)
      requires klass == Request
      ensures fresh(r)
      ensures r.Out() == Outgoing(ErrorResponse, msgMethod, transactionId, NO_FIELDS.(errorCode := code), None, [])
    {
      r := new StunPacket(ErrorResponse, msgMethod, transactionId, null, 0);
      r.errorCode := code;
    }

    method Authenticate(key: seq<byte>)
      modifies this`password
      ensures password == if klass == ErrorResponse then old(password) else key
    {
      if klass == ErrorResponse {
        return;
      }
      password := key;
    }

    /** The attributes in front of MESSAGE-INTEGRITY, in their fixed order. */
    method WriteBody(buffer: array<byte>, ghost pad: seq<byte>) returns (pos: nat)
      requires Out().Valid() && NeededSize(Out()) <= buffer.Length
      requires pad == StalePad(Out(), buffer[..])
      modifies buffer
      ensures Written(old(buffer[..]), buffer[..], pos, Slots(Out(), pad), 7)
    {
      hide Wire, Keep, Put4, Put8, ErrorValue, Mapped, NeededSize, Written;
      ghost var o, b := Out(), buffer[..];
      ghost var slots := Slots(o, pad);
      pos := WriteLead(buffer, pad);
      SlotRoom(b, buffer[..], pos, slots, 3);
      pos := WriteSlot(buffer, pos, iceControlled != 0, ICE_CONTROLLED, Put8(iceControlled), b, slots, 3);
      SlotRoom(b, buffer[..], pos, slots, 4);
      pos := WriteSlot(buffer, pos, hasUseCandidate, USE_CANDIDATE, [], b, slots, 4);
      pos := WriteMappedAddress(buffer, pos, b, pad);
      SlotRoom(b, buffer[..], pos, slots, 6);
      var hasError := errorCode != 0 && klass == ErrorResponse;
      pos := WriteSlot(buffer, pos, hasError, ERROR_CODE, ErrorValue(errorCode), b, slots, 6);
    }

    method WriteLead(buffer: array<byte>, ghost pad: seq<byte>) returns (pos: nat)
      requires Out().Valid() && NeededSize(Out()) <= buffer.Length
      requires pad == StalePad(Out(), buffer[..])
      modifies buffer
      ensures Written(old(buffer[..]), buffer[..], pos, Slots(Out(), pad), 3)
    {
      hide Wire, Keep, Put4, Put8, ErrorValue, Mapped, NeededSize, Written;
      ghost var o, b := Out(), buffer[..];
      ghost var slots := Slots(o, pad);
      WritingStarts(o, b, pad);
      pos := WriteSlot(buffer, 20, username != [], USERNAME, username, b, slots, 0);
      SlotRoom(b, buffer[..], pos, slots, 1);
      pos := WriteSlot(buffer, pos, priority != 0, PRIORITY, Put4(priority), b, slots, 1);
      SlotRoom(b, buffer[..], pos, slots, 2);
      pos := WriteSlot(buffer, pos, iceControlling != 0, ICE_CONTROLLING, Put8(iceControlling), b, slots, 2);
    }

    method WriteMappedAddress(buffer: array<byte>, at: nat, ghost b: seq<byte>, ghost pad: seq<byte>) returns (pos: nat)
      requires Out().Valid() && PadFits(Out(), pad) && Written(b, buffer[..], at, Slots(Out(), pad), 5)
      modifies buffer
      ensures Written(b, buffer[..], pos, Slots(Out(), pad), 6)
    {
      hide Wire, Keep, Put4, Put8, ErrorValue, Mapped, Written;
      ghost var slots, c := Slots(Out(), pad), buffer[..];
      SlotRoom(b, c, at, slots, 5);
      pos := at;
      if xorMappedAddress.Some? && msgMethod == BINDING && klass == SuccessResponse
         && !xorMappedAddress.value.OtherFamily?
      {
        ghost var xs := Keep(slots[..5]);
        WrittenParts(b, c, at, slots, 5);
        assert buffer[20..at] == c[20..at];
        pos := WriteAddress(buffer, at, xorMappedAddress.value, transactionId, xs);
        SliceOfAll(buffer, at, pos);
        SliceOfAll(buffer, 20, pos);
        SlotWritten(b, c, buffer[..], at, pos, slots, 5);
      } else {
        SlotSkipped(b, c, at, slots, 5);
      }
    }

    method WriteHeader(buffer: array<byte>, length: int)
      requires Out().Valid() && 20 <= buffer.Length && 0 <= length < 0x10000
      modifies buffer
      ensures buffer[..] == Patch(old(buffer[..]), 0, Header(Out(), length))
    {
      hide Patch, Put2, High, Low, TypeField;
      ghost var b := buffer[..];
      var t := TypeField(klass, msgMethod);
      Copy(buffer, 0, [High(t), Low(t)]);
      Set2Bytes(buffer, 2, length);
      Copy(buffer, 4, MAGIC_COOKIE);
      Copy(buffer, 8, transactionId);
      PatchNext(b, 0, [High(t), Low(t)], Put2(length));
      PatchNext(b, 0, [High(t), Low(t)] + Put2(length), MAGIC_COOKIE);
      PatchNext(b, 0, [High(t), Low(t)] + Put2(length) + MAGIC_COOKIE, transactionId);
    }

    /** Header and body. */
    method WritePrefix(buffer: array<byte>, total: nat, ghost pad: seq<byte>) returns (pos: nat)
      requires Out().Valid() && NeededSize(Out()) == total <= buffer.Length && pad == StalePad(Out(), buffer[..])
      modifies buffer
      ensures pos == 20 + |Body(Out(), pad)| <= buffer.Length
      ensures buffer[..pos] == Header(Out(), total - 20) + Body(Out(), pad)
      ensures buffer[..][pos..] == old(buffer[..])[pos..]
    {
      hide Patch, Header, Body, NeededSize, Written, Slots, StalePad;
      ghost var o, b := Out(), buffer[..];
      WriteHeader(buffer, total - 20);
      ghost var c := buffer[..];
      HeaderWritten(o, b, c, total - 20);
      pos := WriteBody(buffer, pad);
      BodyWritten(o, c, buffer[..], pos, pad);
      SliceShift(b, 20, pos - 20, |b| - 20);
      SliceShift(c, 20, pos - 20, |b| - 20);
      SliceOfAll(buffer, pos, pos);
    }

    /** MESSAGE-INTEGRITY, where there is one, and where its value lies. */
    method Sign(buffer: array<byte>, pos: nat, total: nat, hmac: Hmac, ghost pad: seq<byte>)
      returns (next: nat, value: Option<nat>)
      requires Out().Valid() && PadFits(Out(), pad) && total == Size(Out(), pad) <= buffer.Length
      requires pos == 20 + |Body(Out(), pad)| && buffer[..pos] == Header(Out(), total - 20) + Body(Out(), pad)
      modifies buffer
      ensures next == total - 8 && buffer[..next] == Covered(Out(), pad, hmac)
      ensures buffer[..][next..] == old(buffer[..])[next..]
      ensures value == if Out().HasIntegrity() then Some(total - 28) else None
    {
      hide Header, Body, Covered, Size, Attr.Wire, IntegrityAttr;
      CoveredParts(Out(), pad, hmac);
      if klass != ErrorResponse && password != [] {
        next := WriteIntegrity(buffer, pos, total, hmac, pad);
        value := Some(pos + 4);
      } else {
        next, value := pos, None;
      }
    }

    /** The length field leaves FINGERPRINT out while the digest is computed. */
    method WriteIntegrity(buffer: array<byte>, pos: nat, total: nat, hmac: Hmac, ghost pad: seq<byte>)
      returns (next: nat)
      requires Out().Valid() && PadFits(Out(), pad) && Out().HasIntegrity()
      requires total == Size(Out(), pad) <= buffer.Length
      requires pos == 20 + |Body(Out(), pad)| && buffer[..pos] == Header(Out(), total - 20) + Body(Out(), pad)
      modifies buffer
      ensures next == pos + 24 && buffer[..][next..] == old(buffer[..])[next..]
      ensures buffer[..next] == Header(Out(), total - 20) + Body(Out(), pad) + IntegrityAttr(Out(), pad, hmac).Wire()
    {
      hide Header, Body, Attr.Wire;
      ghost var o, body, b := Out(), Body(Out(), pad), buffer[..];
      ghost var mi := IntegrityAttr(o, pad, hmac).Wire();
      PatchLength(buffer, total - 20 - 8, o, total - 20, body);
      TailKept(b, buffer[..], pos, pos + 24);
      var computed := hmac(password, buffer[..pos]);
      next := PutAttr(buffer, pos, MESSAGE_INTEGRITY, computed);
      Associate(Header(o, total - 28), body, mi);
      PatchLength(buffer, total - 20, o, total - 28, body + mi);
      Associate(Header(o, total - 20), body, mi);
    }

    /** Serialise into `buffer`: the octets are those of the specification, and nothing behind them is touched. */
    method Serialize(buffer: array<byte>, hmac: Hmac)
      requires Out().Valid() && NeededSize(Out()) <= buffer.Length
      modifies this`data, this`size, this`messageIntegrity, this`hasFingerprint, buffer
      ensures data == buffer && size == NeededSize(Out()) && hasFingerprint
      ensures buffer[..size] == MessageBytes(Out(), StalePad(Out(), old(buffer[..])), hmac)
      ensures buffer[..][size..] == old(buffer[..])[size..]
      ensures messageIntegrity == if Out().HasIntegrity() then Some(size - 28) else None
    {
      hide Header, Body, NeededSize, Covered, StalePad, Size, Attr.Wire, FingerprintOver;
      ghost var o, pad, b := Out(), StalePad(Out(), buffer[..]), buffer[..];
      data := buffer;
      size := ComputeSize();
      SizeIsNeeded(o, pad);
      SizeParts(o, pad);
      var pos := WritePrefix(buffer, size, pad);
      ghost var c := buffer[..];
      TailKept(b, c, pos, size);
      pos, messageIntegrity := Sign(buffer, pos, size, hmac, pad);
      ghost var d := buffer[..];
      TailKept(c, d, pos, size);
      pos := AppendFingerprint(buffer, pos);
      assert pos == size;
      hasFingerprint := true;
    }

    /** The total, added up attribute by attribute before anything is written. */
    method ComputeSize() returns (n: nat)
      requires Out().Valid()
      ensures n == NeededSize(Out())
    {
      n := AddIceSize(20);
      if xorMappedAddress.Some? && msgMethod == BINDING && klass == SuccessResponse {
        match xorMappedAddress.value
        case V4(_, _) => n := n + 4 + 8;
        case V6(_, _) => n := n + 4 + 20;
        case OtherFamily =>
      }
      hide IceSize;
      if errorCode != 0 && klass == ErrorResponse {
        n := n + 4 + 4;
      }
      if klass != ErrorResponse && password != [] {
        n := n + 4 + 20;
      }
      n := n + 4 + 4;
    }

    method AddIceSize(start: nat) returns (n: nat)
      requires |username| < 513
      ensures n == start + IceSize(Fields())
    {
      n := start;
      if username != [] {
        n := n + 4 + PadTo4Bytes(|username|);
      }
      if priority != 0 {
        n := n + 4 + 4;
      }
      if iceControlling != 0 {
        n := n + 4 + 8;
      }
      if iceControlled != 0 {
        n := n + 4 + 8;
      }
      if hasUseCandidate {
        n := n + 4;
      }
    }
  }

  method AppendFingerprint(buffer: array<byte>, pos: nat) returns (next: nat)
    requires pos + 8 <= buffer.Length
    modifies buffer
    ensures next == pos + 8 && buffer[..][next..] == old(buffer[..])[next..]
    ensures buffer[..next] == old(buffer[..pos]) + FingerprintOver(old(buffer[..pos])).Wire()
  {
    hide Crc32.Xor, Crc32.Crc, Put4, Attr.Wire;
    var crc := Crc32.GetCRC32(buffer, pos);
    next := PutAttr(buffer, pos, FINGERPRINT, Put4(Crc32.Xor(crc, FINGERPRINT_XOR)));
  }

  /** One unpadded attribute appended to what is already there. */
  method PutAttr(buffer: array<byte>, pos: nat, typ: int, value: seq<byte>) returns (next: nat)
    requires pos + 4 + |value| <= buffer.Length && 0 <= typ < 0x10000 && |value| < 0x10000 && |value| % 4 == 0
    modifies buffer
    ensures next == pos + 4 + |value| && buffer[..][next..] == old(buffer[..])[next..]
    ensures buffer[..next] == old(buffer[..pos]) + Attr(typ, value, []).Wire()
  {
    hide Put2, Patch;
    ghost var b := buffer[..];
    WriteTlv(buffer, pos, typ, value);
    next := pos + 4 + |value|;
    ghost var w := Put2(typ) + Put2(|value|) + value;
    PatchParts(b, pos, w);
    assert w + [] == w;
    assert buffer[..next] == buffer[..][..pos] + buffer[..][pos..next];
  }

  /** Changing the length field of a header in the buffer. */
  lemma HeaderPatched(o: Outgoing, b: seq<byte>, c: seq<byte>, before: int, after: int, w: seq<byte>)
    requires o.Valid() && 0 <= before < 0x10000 && 0 <= after < 0x10000 && 20 + |w| <= |b|
    requires b[..20 + |w|] == Header(o, before) + w && c == Patch(b, 2, Put2(after))
    ensures |c| == |b| && c[..20 + |w|] == Header(o, after) + w && c[20 + |w|..] == b[20 + |w|..]
  {
    hide Put2, Header, Patch;
    var s := Header(o, before) + w;
    HeaderTail(o, before, after, w, |w|);
    PatchParts(b, 2, Put2(after));
    assert w[..|w|] == w;
    assert s[..2] == b[..2] && s[4..20 + |w|] == b[4..20 + |w|];
    assert c[..20 + |w|] == c[..2] + c[2..4] + c[4..][..16 + |w|];
    assert c[20 + |w|..] == c[4..][16 + |w|..];
  }

  method PatchLength(buffer: array<byte>, value: int, ghost o: Outgoing, ghost before: int, ghost w: seq<byte>)
    requires o.Valid() && 0 <= before < 0x10000 && 0 <= value < 0x10000 && 20 + |w| <= buffer.Length
    requires buffer[..20 + |w|] == Header(o, before) + w
    modifies buffer
    ensures buffer[..20 + |w|] == Header(o, value) + w && buffer[..][20 + |w|..] == old(buffer[..])[20 + |w|..]
  {
    hide Header, Patch, Put2;
    ghost var b := buffer[..];
    Set2Bytes(buffer, 2, value);
    HeaderPatched(o, b, buffer[..], before, value, w);
    SliceOfAll(buffer, 20 + |w|, 20 + |w|);
  }

  lemma SizeParts(o: Outgoing, pad: seq<byte>)
    requires o.Valid() && PadFits(o, pad)
    ensures 20 + |Body(o, pad)| <= Size(o, pad) - 8
  {
  }

  lemma HeaderWritten(o: Outgoing, b: seq<byte>, c: seq<byte>, length: int)
    requires o.Valid() && NeededSize(o) <= |b| && 0 <= length < 0x10000 && c == Patch(b, 0, Header(o, length))
    ensures StalePad(o, c) == StalePad(o, b) && c[..20] == Header(o, length) && c[20..] == b[20..]
  {
    hide Patch, Header, NeededSize;
    PatchParts(b, 0, Header(o, length));
    var u := |o.fields.username|;
    SliceShift(b, 20, 4 + u, 4 + Pad4(u));
    SliceShift(c, 20, 4 + u, 4 + Pad4(u));
  }

  lemma BodyWritten(o: Outgoing, c: seq<byte>, d: seq<byte>, pos: nat, pad: seq<byte>)
    requires o.Valid() && PadFits(o, pad) && Written(c, d, pos, Slots(o, pad), 7)
    ensures pos == 20 + |Body(o, pad)| <= |d| == |c| && d[..pos] == c[..20] + Body(o, pad) && d[pos..] == c[pos..]
  {
    hide Wire, Keep, Slots;
    assert Slots(o, pad)[..7] == Slots(o, pad);
    assert d[..pos] == d[..20] + d[20..pos];
  }

  lemma WrittenParts(b: seq<byte>, c: seq<byte>, pos: nat, slots: seq<Slot>, k: nat)
    requires Written(b, c, pos, slots, k)
    ensures 20 <= pos <= |b| == |c| && c[20..pos] == Wire(Keep(slots[..k]))
  {
  }

  lemma WritingStarts(o: Outgoing, b: seq<byte>, pad: seq<byte>)
    requires o.Valid() && NeededSize(o) <= |b| && pad == StalePad(o, b)
    ensures Written(b, b, 20, Slots(o, pad), 0)
  {
    hide Wire, Keep, NeededSize, Slots;
    SizeIsNeeded(o, pad);
    assert Slots(o, pad)[..0] == [];
    NothingKept();
  }

  /** Patching the length field leaves exactly the text to hash, and does not touch the digest. */
  lemma PatchedInput(before: seq<byte>, after: seq<byte>, size: nat, at: nat, patched: bool)
    requires |before| == |after| && 24 <= at && at + 20 <= size <= |before| && size < 0x10000
    requires Get2(before[..size], 2) == size - 20 && at == size - 20 - if patched then 8 else 0
    requires after == if patched then Patch(before, 2, Put2(size - 28)) else before
    ensures after[..at - 4] == AuthInput(before[..size], at) && after[at..at + 20] == before[..size][at..at + 20]
  {
    hide *;
    if !patched {
      AlreadyPatched(before, size, at);
    }
    CutPatched(before, after, Put2(at), size, at);
    AuthInputIs(before[..size], at);
  }

  /** A length field that already holds a value is not changed by writing it. */
  lemma AlreadyPatched(before: seq<byte>, size: nat, value: int)
    requires 4 <= size <= |before| && 0 <= value < 0x10000 && Get2(before[..size], 2) == value
    ensures Patch(before, 2, Put2(value)) == before
  {
    hide Put2, Get2;
    Get2Local(before[..size], 2);
    Get2Determines(before[..size][2..4], value);
    assert before[..size][2..4] == before[2..4];
    assert before == before[..2] + before[2..4] + before[4..];
  }

  lemma CutPatched(before: seq<byte>, after: seq<byte>, p: seq<byte>, size: nat, at: nat)
    requires |p| == 2 && 24 <= at && at + 20 <= size <= |before| && after == Patch(before, 2, p)
    ensures after[..at - 4] == before[..size][..2] + p + before[..size][4..at - 4]
    ensures after[at..at + 20] == before[..size][at..at + 20]
  {
    hide Patch;
    PatchParts(before, 2, p);
    SliceShift(before, 4, 0, at - 8);
    SliceShift(after, 4, 0, at - 8);
    SliceShift(before, 4, at - 4, at + 16);
    SliceShift(after, 4, at - 4, at + 16);
    assert after[..at - 4] == after[..2] + after[2..4] + after[4..at - 4];
    Truncated(before, size, 4, at - 4);
    Truncated(before, size, at, at + 20);
  }

  lemma Truncated(b: seq<byte>, size: nat, i: nat, j: nat)
    requires 2 <= i <= j <= size <= |b|
    ensures b[..size][i..j] == b[i..j] && b[..size][..2] == b[..2]
  {
  }

  lemma AuthInputIs(s: seq<byte>, at: nat)
    requires 24 <= at <= |s| && at < 0x10000
    ensures AuthInput(s, at) == s[..2] + Put2(at) + s[4..at - 4]
  {
  }

  lemma PatchUndone(before: seq<byte>, after: seq<byte>, size: nat)
    requires 28 <= size <= |before| && size < 0x10000 && Get2(before[..size], 2) == size - 20
    requires after == Patch(Patch(before, 2, Put2(size - 28)), 2, Put2(size - 20))
    ensures after == before
  {
    hide *;
    PatchAgain(before, 2, Put2(size - 28), Put2(size - 20));
    AlreadyPatched(before, size, size - 20);
  }

  lemma LengthsOf(a: Attribute)
    requires LengthOk(a)
    ensures a.typ == FINGERPRINT ==> |a.value| == 4 && Pad4(|a.value|) == 4
    ensures a.typ == MESSAGE_INTEGRITY ==> Pad4(|a.value|) == 20
  {
  }

  lemma ScanStarts(s: seq<byte>)
    requires HeaderOk(s) && |s| <= 0xFFFC
    ensures Scanned(s, 20, []) && FieldsOf([]) == NO_FIELDS && !Has([], FINGERPRINT) && !Has([], MESSAGE_INTEGRITY)
  {
    var rest := Decode(s[20..]);
    if rest.Some? {
      assert [] + rest.value == rest.value;
    }
  }
}
