/** RTP packets (section 5.1 of RFC 3550): the layout, and the header parser that must recover it. */
module RtpPackets {
  import opened Bytes

  /** A header extension; its body is a whole number of 32-bit words. */
  datatype Extension = Extension(profile: int, body: seq<byte>) {
    predicate Valid() {
      0 <= profile < 0x10000 && |body| % 4 == 0 && |body| / 4 < 0x10000
    }

    function Wire(): (w: seq<byte>)
      requires Valid()
      ensures |w| == 4 + |body|
    {
      Put2(profile) + Put2(|body| / 4) + body
    }
  }

  /** The first two octets, read as flags and numbers. */
  datatype Lead = Lead(version: byte, padded: bool, extended: bool, csrcCount: byte, marker: bool, payloadType: byte) {
    predicate Valid() {
      version < 4 && csrcCount < 16 && payloadType < 0x80
    }

    function First(): byte {
      (version << 6) | (if padded then 0x20 else 0) | (if extended then 0x10 else 0) | csrcCount
    }

    function Second(): byte {
      (if marker then 0x80 else 0) | payloadType
    }
  }

  function ReadLead(a: byte, b: byte): Lead {
    Lead(a >> 6, a & 0x20 != 0, a & 0x10 != 0, a & 0x0f, b & 0x80 != 0, b & 0x7f)
  }

  lemma LeadRoundTrip(l: Lead)
    requires l.Valid()
    ensures ReadLead(l.First(), l.Second()) == l
  {
  }

  lemma LeadDetermined(a: byte, b: byte)
    ensures ReadLead(a, b).Valid() && ReadLead(a, b).First() == a && ReadLead(a, b).Second() == b
  {
  }

  /** The two octets in numbers: version, P, X and CC; M and PT. */
  lemma LeadInNumbers(a: byte, b: byte)
    ensures var l, x, y := ReadLead(a, b), a as int, b as int;
            && l.version as int == x / 64 && (l.padded <==> x / 32 % 2 == 1) && (l.extended <==> x / 16 % 2 == 1)
            && l.csrcCount as int == x % 16 && (l.marker <==> y >= 128) && l.payloadType as int == y % 128
  {
    ShiftRight6(a);
    Bit5(a);
    Bit4(a);
    Low4(a);
    Bit7(b);
    Low7(b);
  }

  lemma ShiftRight6(a: byte)
    ensures (a >> 6) as int == a as int / 64
  {
  }

  lemma Bit5(a: byte)
    ensures a & 0x20 != 0 <==> a as int / 32 % 2 == 1
  {
  }

  lemma Bit4(a: byte)
    ensures a & 0x10 != 0 <==> a as int / 16 % 2 == 1
  {
  }

  lemma Low4(a: byte)
    ensures (a & 0x0f) as int == a as int % 16
  {
  }

  lemma Bit7(b: byte)
    ensures b & 0x80 != 0 <==> b as int >= 128
  {
  }

  lemma Low7(b: byte)
    ensures (b & 0x7f) as int == b as int % 128
  {
  }

  datatype Rtp = Rtp(padded: bool, marker: bool, payloadType: byte, sequenceNumber: int, timestamp: bv32, ssrc: bv32,
                     csrcCount: byte, csrcs: seq<byte>, extension: Option<Extension>,
                     payload: seq<byte>, padding: seq<byte>) {
    predicate Fits() {
      && payloadType < 0x80 && 0 <= sequenceNumber < 0x10000 && csrcCount < 16 && |csrcs| == 4 * Octet(csrcCount)
      && (extension.Some? ==> extension.value.Valid())
    }

    /** The layout of section 5.1 of RFC 3550. */
    predicate Standard() {
      Fits() && StandardPadding(padded, padding)
    }

    /** The layout as the parser takes it. */
    predicate Valid() {
      Fits() && PaddingOk(padded, payload, padding)
    }

    function Leading(): (l: Lead)
      requires Valid()
      ensures l.Valid()
    {
      Lead(2, padded, extension.Some?, csrcCount, marker, payloadType)
    }

    function Fixed(): (w: seq<byte>)
      requires Valid()
      ensures |w| == 12
    {
      [Leading().First(), Leading().Second()] + Put2(sequenceNumber) + Put4(timestamp) + Put4(ssrc)
    }

    function Header(): seq<byte>
      requires Valid()
    {
      Fixed() + csrcs + (if extension.Some? then extension.value.Wire() else [])
    }

    function Wire(): seq<byte>
      requires Valid()
    {
      Header() + payload + padding
    }
  }

  /** The padding bit announces padding, which ends in its own length. */
  predicate StandardPadding(padded: bool, padding: seq<byte>) {
    if padded then padding != [] && Octet(padding[|padding| - 1]) == |padding| else padding == []
  }

  /** As coded, a set padding bit with nothing behind the header is let through. */
  predicate PaddingOk(padded: bool, payload: seq<byte>, padding: seq<byte>) {
    StandardPadding(padded, padding) || (padded && payload == [] && padding == [])
  }

  /** The number an octet spells. */
  function Octet(b: byte): (n: nat)
    ensures n < 256
  {
    b as int
  }

  // ---- decoding ---------------------------------------------------------------------------------

  function LeadOf(s: seq<byte>): Lead
    requires |s| >= 12
  {
    ReadLead(s[0], s[1])
  }

  function CsrcEnd(s: seq<byte>): nat
    requires |s| >= 12
  {
    12 + 4 * Octet(LeadOf(s).csrcCount)
  }

  /** Where the payload starts, if the header fits. */
  function PayloadOffset(s: seq<byte>): Option<nat>
    requires |s| >= 12
  {
    var h := CsrcEnd(s);
    if |s| < h then None
    else if !LeadOf(s).extended then Some(h)
    else if h + 4 > |s| || h + 4 + 4 * Get2(s, h + 2) > |s| then None
    else Some(h + 4 + 4 * Get2(s, h + 2))
  }

  function PaddingSize(s: seq<byte>, off: nat): nat
    requires |s| >= 12
  {
    if LeadOf(s).padded && off < |s| then Octet(s[|s| - 1]) else 0
  }

  function Decode(s: seq<byte>): Option<Rtp> {
    if |s| < 12 || LeadOf(s).version != 2 || PayloadOffset(s).None? then None
    else
      var l, h, off := LeadOf(s), CsrcEnd(s), PayloadOffset(s).value;
      var pad := PaddingSize(s, off);
      if (l.padded && off < |s| && pad == 0) || off + pad > |s| then None
      else
        var x := if l.extended then Some(Extension(Get2(s, h), s[h + 4..off])) else None;
        Some(Rtp(l.padded, l.marker, l.payloadType, Get2(s, 2), Get4(s, 4), Get4(s, 8), l.csrcCount, s[12..h], x,
                 s[off..|s| - pad], s[|s| - pad..]))
  }

  lemma FixedDetermined(s: seq<byte>)
    requires |s| >= 12
    ensures var l := LeadOf(s);
            && l.Valid()
            && [l.First(), l.Second()] + Put2(Get2(s, 2)) + Put4(Get4(s, 4)) + Put4(Get4(s, 8)) == s[..12]
  {
    hide ReadLead, Lead.First, Lead.Second, Lead.Valid, Get2, Put2, Get4, Put4;
    LeadDetermined(s[0], s[1]);
    Get2Local(s, 2);
    Get2Determines(s[2..4], Get2(s, 2));
    Get4Local(s, 4);
    Get4Determines(s[4..8]);
    Get4Local(s, 8);
    Get4Determines(s[8..12]);
    assert s[..12] == [s[0], s[1]] + s[2..4] + s[4..8] + s[8..12];
  }

  lemma DecodedValid(s: seq<byte>)
    requires Decode(s).Some?
    ensures Decode(s).value.Valid()
  {
    hide Octet, LeadOf, Get2, Get4, PaddingOk, Extension.Valid;
    var h, off := CsrcEnd(s), PayloadOffset(s).value;
    FixedDetermined(s);
    TailOk(s, off, PaddingSize(s, off));
    if LeadOf(s).extended {
      ExtensionDetermined(s, h);
    }
  }

  lemma HeaderOfDecode(s: seq<byte>)
    requires Decode(s).Some? && Decode(s).value.Valid()
    ensures Decode(s).value.Header() == s[..PayloadOffset(s).value]
  {
    hide Octet, LeadOf, Lead.First, Lead.Second, Get2, Put2, Get4, Put4, Rtp.Valid, Extension.Wire, PaddingSize;
    var r, h, off := Decode(s).value, CsrcEnd(s), PayloadOffset(s).value;
    FixedDetermined(s);
    assert r.Leading() == LeadOf(s);
    assert s[..12] + s[12..h] == s[..h];
    if r.extension.Some? {
      ExtensionDetermined(s, h);
      assert s[..h] + s[h..off] == s[..off];
    } else {
      assert s[..h] + [] == s[..h];
    }
  }

  /** What is decoded is valid and is exactly what was on the wire. */
  lemma WireOfDecode(s: seq<byte>)
    requires Decode(s).Some?
    ensures Decode(s).value.Valid() && Decode(s).value.Wire() == s
  {
    hide Octet, LeadOf, Get2, Get4, Rtp.Valid, Rtp.Header;
    DecodedValid(s);
    HeaderOfDecode(s);
    var off := PayloadOffset(s).value;
    var pad := PaddingSize(s, off);
    assert s[..off] + s[off..|s| - pad] + s[|s| - pad..] == s;
  }

  lemma TailOk(s: seq<byte>, off: nat, pad: nat)
    requires |s| >= 12 && pad == PaddingSize(s, off) && off + pad <= |s|
    requires LeadOf(s).padded && off < |s| ==> pad != 0
    ensures PaddingOk(LeadOf(s).padded, s[off..|s| - pad], s[|s| - pad..])
  {
    hide LeadOf;
    assert s[off..|s| - pad] + s[|s| - pad..] == s[off..];
  }

  lemma ExtensionDetermined(s: seq<byte>, h: nat)
    requires h + 4 <= |s| && h + 4 + 4 * Get2(s, h + 2) <= |s|
    ensures var off := h + 4 + 4 * Get2(s, h + 2);
            var e := Extension(Get2(s, h), s[h + 4..off]);
            e.Valid() && e.Wire() == s[h..off]
  {
    hide Get2, Put2;
    var n := Get2(s, h + 2);
    var off := h + 4 + 4 * n;
    Get2Local(s, h);
    Get2Determines(s[h..h + 2], Get2(s, h));
    Get2Local(s, h + 2);
    Get2Determines(s[h + 2..h + 4], n);
    assert (4 * n) / 4 == n && (4 * n) % 4 == 0;
    assert s[h..off] == s[h..h + 2] + s[h + 2..h + 4] + s[h + 4..off];
  }

  lemma FixedParts(r: Rtp, rest: seq<byte>)
    requires r.Valid()
    ensures var s := r.Fixed() + rest;
            && LeadOf(s) == r.Leading() && s[12..] == rest
            && Get2(s, 2) == r.sequenceNumber && Get4(s, 4) == r.timestamp && Get4(s, 8) == r.ssrc
  {
    hide ReadLead, Rtp.Leading, Lead.First, Lead.Second, Get2, Put2, Get4, Put4;
    var s := r.Fixed() + rest;
    LeadRoundTrip(r.Leading());
    assert s[2..4] == Put2(r.sequenceNumber) && s[4..8] == Put4(r.timestamp) && s[8..12] == Put4(r.ssrc);
    Get2Local(s, 2);
    Get4Local(s, 4);
    Get4Local(s, 8);
    GetPut4(r.timestamp);
    GetPut4(r.ssrc);
  }

  /** The length word of an extension, read back. */
  lemma ExtensionParts(e: Extension, before: seq<byte>, rest: seq<byte>)
    requires e.Valid()
    ensures var s, h := before + (e.Wire() + rest), |before|;
            && Get2(s, h) == e.profile && 4 * Get2(s, h + 2) == |e.body| && s[h + 4..h + 4 + |e.body|] == e.body
  {
    hide Get2, Put2;
    var s, h := before + (e.Wire() + rest), |before|;
    assert s[h..h + 2] == Put2(e.profile) && s[h + 2..h + 4] == Put2(|e.body| / 4);
    Get2Local(s, h);
    Get2Local(s, h + 2);
  }

  lemma WireSplits(r: Rtp)
    requires r.Valid()
    ensures var x := if r.extension.Some? then r.extension.value.Wire() else [];
            && r.Wire() == r.Fixed() + (r.csrcs + x + r.payload + r.padding)
            && r.Wire() == (r.Fixed() + r.csrcs) + (x + (r.payload + r.padding))
  {
    hide Rtp.Fixed, Extension.Wire, Rtp.Valid;
  }

  lemma OffsetOfWire(r: Rtp)
    requires r.Valid()
    ensures var s, h := r.Wire(), 12 + |r.csrcs|;
            && |s| >= 12 && CsrcEnd(s) == h && PayloadOffset(s) == Some(|r.Header()|)
            && (r.extension.Some? ==> r.extension.value == Extension(Get2(s, h), s[h + 4..|r.Header()|]))
  {
    hide Octet, LeadOf, Get2, Put2, Get4, Rtp.Fixed, Extension.Wire, PaddingOk;
    var x := if r.extension.Some? then r.extension.value.Wire() else [];
    WireSplits(r);
    FixedParts(r, r.csrcs + x + r.payload + r.padding);
    if r.extension.Some? {
      ExtensionParts(r.extension.value, r.Fixed() + r.csrcs, r.payload + r.padding);
    }
  }

  lemma FieldsOfWire(r: Rtp)
    requires r.Valid()
    ensures var s := r.Wire();
            && |s| >= 12 + |r.csrcs| && LeadOf(s) == r.Leading() && s[12..12 + |r.csrcs|] == r.csrcs
            && Get2(s, 2) == r.sequenceNumber && Get4(s, 4) == r.timestamp && Get4(s, 8) == r.ssrc
  {
    hide Octet, LeadOf, Get2, Get4, Rtp.Fixed, Extension.Wire, PaddingOk;
    var x := if r.extension.Some? then r.extension.value.Wire() else [];
    WireSplits(r);
    FixedParts(r, r.csrcs + x + r.payload + r.padding);
    assert (r.csrcs + x + r.payload + r.padding)[..|r.csrcs|] == r.csrcs;
  }

  lemma TailOfWire(r: Rtp, off: nat)
    requires r.Valid() && off == |r.Header()|
    ensures var s := r.Wire();
            && |s| >= 12 && off <= |s| && PaddingSize(s, off) == |r.padding| && off + |r.padding| <= |s|
            && (r.padded && off < |s| ==> |r.padding| != 0)
            && s[off..|s| - |r.padding|] == r.payload && s[|s| - |r.padding|..] == r.padding
  {
    hide Octet, LeadOf, Get2, Get4, Rtp.Fixed, Rtp.Header, Extension.Valid;
    var s := r.Wire();
    FieldsOfWire(r);
    assert s[off..] == r.payload + r.padding;
    if r.padded && off < |s| {
      assert s[|s| - 1] == r.padding[|r.padding| - 1];
    }
  }

  /** Where everything lies in the fixed header and behind it. */
  lemma LayoutInNumbers(r: Rtp)
    requires r.Valid()
    ensures var s, h := r.Wire(), 12 + 4 * (r.csrcCount as int);
            && |s| >= h && s[2..4] == Put2(r.sequenceNumber) && s[4..8] == Put4(r.timestamp) && s[8..12] == Put4(r.ssrc)
            && s[12..h] == r.csrcs
            && (r.extension.None? ==> s[h..] == r.payload + r.padding)
            && (r.extension.Some? ==>
                  var e := r.extension.value;
                  && |s| >= h + 4 + |e.body| && s[h..h + 2] == Put2(e.profile) && s[h + 2..h + 4] == Put2(|e.body| / 4)
                  && s[h + 4..h + 4 + |e.body|] == e.body && s[h + 4 + |e.body|..] == r.payload + r.padding)
  {
    hide Octet, Put2, Put4, PaddingOk, Rtp.Fixed, Rtp.Wire, Extension.Valid;
    var x := if r.extension.Some? then r.extension.value.Wire() else [];
    WireSplits(r);
    CsrcLength(r);
    FixedSlices(r, r.csrcs + x + r.payload + r.padding);
    CsrcSlice(r.Wire(), r.Fixed(), r.csrcs, x, r.payload + r.padding);
    if r.extension.Some? {
      var e := r.extension.value;
      TailSlices(r.Wire(), r.Fixed() + r.csrcs, Put2(e.profile), Put2(|e.body| / 4), e.body, r.payload + r.padding);
    }
  }

  lemma CsrcLength(r: Rtp)
    requires r.Valid()
    ensures |r.csrcs| == 4 * (r.csrcCount as int)
  {
  }

  lemma FixedSlices(r: Rtp, rest: seq<byte>)
    requires r.Valid()
    ensures var s := r.Fixed() + rest;
            s[2..4] == Put2(r.sequenceNumber) && s[4..8] == Put4(r.timestamp) && s[8..12] == Put4(r.ssrc)
  {
    hide Put2, Put4, Lead.First, Lead.Second;
  }

  lemma CsrcSlice(s: seq<byte>, f: seq<byte>, c: seq<byte>, x: seq<byte>, t: seq<byte>)
    requires |f| == 12 && s == (f + c) + (x + t)
    ensures |s| >= 12 + |c| && s[12..12 + |c|] == c && (x == [] ==> s[12 + |c|..] == t)
  {
  }

  lemma TailSlices(s: seq<byte>, a: seq<byte>, b: seq<byte>, c: seq<byte>, d: seq<byte>, t: seq<byte>)
    requires |b| == |c| == 2 && s == a + (b + c + d + t)
    ensures var h := |a|;
            && |s| >= h + 4 + |d| && s[h..h + 2] == b && s[h + 2..h + 4] == c
            && s[h + 4..h + 4 + |d|] == d && s[h + 4 + |d|..] == t
  {
  }

  /** Every valid packet is accepted and read back as it was written. */
  lemma DecodeOfWire(r: Rtp)
    requires r.Valid()
    ensures Decode(r.Wire()) == Some(r)
  {
    hide Octet, LeadOf, Get2, Get4, Rtp.Wire, Rtp.Header, CsrcEnd, PayloadOffset, PaddingSize, Rtp.Valid;
    OffsetOfWire(r);
    FieldsOfWire(r);
    TailOfWire(r, |r.Header()|);
  }

  /** Decoding succeeds exactly on wire forms, and there is only one packet with a given wire form. */
  lemma Exactness(s: seq<byte>)
    ensures Decode(s).Some? <==> exists r: Rtp :: r.Valid() && r.Wire() == s
    ensures forall r: Rtp :: r.Valid() && r.Wire() == s ==> Decode(s) == Some(r)
  {
    hide Decode, Rtp.Valid, Rtp.Wire;
    if Decode(s).Some? {
      WireOfDecode(s);
    }
    forall r: Rtp | r.Valid() && r.Wire() == s
      ensures Decode(s) == Some(r)
    {
      DecodeOfWire(r);
    }
  }

  // ---- where the parser departs from the standard -----------------------------------------------

  /** The padding bit is set, and the packet ends with its header. */
  predicate BarePaddingBit(s: seq<byte>) {
    |s| >= 12 && LeadOf(s).padded && PayloadOffset(s) == Some(|s|)
  }

  /** The accepted packets are the standard ones and those with a bare padding bit; no packet is both. */
  lemma StandardExactly(s: seq<byte>)
    ensures Decode(s).Some? && !BarePaddingBit(s) <==> exists r: Rtp :: r.Standard() && r.Wire() == s
    ensures Decode(s).Some? ==> (Decode(s).value.Standard() <==> !BarePaddingBit(s))
  {
    Exactness(s);
    if Decode(s).Some? {
      StandardDecoded(s);
    }
    hide Decode, BarePaddingBit, Rtp.Valid, Rtp.Wire;
  }

  lemma StandardDecoded(s: seq<byte>)
    requires Decode(s).Some?
    ensures Decode(s).value.Standard() <==> !BarePaddingBit(s)
  {
    DecodedValid(s);
    hide Octet, LeadOf, Get2, Get4, Rtp.Valid, PayloadOffset;
  }

  /** One such packet: version 2, padding bit set, payload type 96, and nothing behind the fixed header. */
  lemma BarePaddingBitAccepted()
    ensures var s := [0xA0, 0x60, 0, 0, 0, 0, 0, 0, 0, 0, 0, 0];
            && BarePaddingBit(s) && Decode(s).Some? && Decode(s).value.padded && Decode(s).value.padding == []
            && !exists r: Rtp :: r.Standard() && r.Wire() == s
  {
    var s := [0xA0, 0x60, 0, 0, 0, 0, 0, 0, 0, 0, 0, 0];
    assert ReadLead(0xA0, 0x60) == Lead(2, true, false, 0, false, 0x60);
    hide ReadLead, Get2, Get4;
    assert BarePaddingBit(s);
    StandardExactly(s);
  }

  // ---- the parser -------------------------------------------------------------------------------

  class RtpPacket {
    var marker: bool
    var payloadType: byte
    var paddingSize: nat
    var sequenceNumber: int
    var timestamp: bv32
    var ssrc: bv32
    var payloadOffset: nat
    var payloadSize: nat
    var buffer: seq<byte>  // the copy of the last packet accepted

    constructor ()
      ensures Cleared() && buffer == []
    {
      marker, payloadType, paddingSize, sequenceNumber, timestamp, ssrc := false, 0, 0, 0, 0, 0;
      payloadOffset, payloadSize, buffer := 12, 0, [];
    }

    ghost predicate Cleared()
      reads this
    {
      !marker && payloadType == 0 && paddingSize == 0 && sequenceNumber == 0 && timestamp == 0 && ssrc == 0
      && payloadOffset == 12 && payloadSize == 0
    }

    /** The fields describe `r`, and the payload bounds cut `r.payload` out of its wire form. */
    ghost predicate Describes(r: Rtp)
      requires r.Valid()
      reads this
    {
      && marker == r.marker && payloadType == r.payloadType && sequenceNumber == r.sequenceNumber
      && timestamp == r.timestamp && ssrc == r.ssrc && paddingSize == |r.padding|
      && payloadOffset == |r.Header()| && payloadSize == |r.payload| && payloadOffset + payloadSize <= |r.Wire()|
      && r.Wire()[payloadOffset..payloadOffset + payloadSize] == r.payload
    }

    /** The fixed header, the contributing sources and the extension. */
    method ReadHeader(data: seq<byte>) returns (ok: bool)
      modifies this
      ensures buffer == old(buffer)
      ensures ok == (|data| >= 12 && LeadOf(data).version == 2 && PayloadOffset(data).Some?)
      ensures ok ==> && marker == LeadOf(data).marker && payloadType == LeadOf(data).payloadType
                     && sequenceNumber == Get2(data, 2) && timestamp == Get4(data, 4) && ssrc == Get4(data, 8)
                     && payloadOffset == PayloadOffset(data).value
    {
      hide Octet, ReadLead, Get2, Get4;
      var size := |data|;
      if size < 12 {
        return false;
      }
      var lead := ReadLead(data[0], data[1]);
      if lead.version != 2 {
        return false;
      }
      var numberOfCsrcs := Octet(lead.csrcCount);
      marker := lead.marker;
      payloadType := lead.payloadType;
      sequenceNumber := Get2(data, 2);
      timestamp := Get4(data, 4);
      ssrc := Get4(data, 8);
      if size < 12 + numberOfCsrcs * 4 {
        return false;
      }
      payloadOffset := 12 + numberOfCsrcs * 4;
      if lead.extended {
        var extensionOffset := payloadOffset + 4;
        if extensionOffset > size {
          return false;
        }
        var capacity := Get2(data, payloadOffset + 2) * 4;
        if extensionOffset + capacity > size {
          return false;
        }
        payloadOffset := extensionOffset + capacity;
      }
      ok := true;
    }

    /** On refusal the fields may be half written. */
    method ParseBuffer(data: seq<byte>) returns (ok: bool)
      modifies this
      ensures buffer == old(buffer) && ok == Decode(data).Some?
      ensures ok ==> var r := Decode(data).value;
                     && marker == r.marker && payloadType == r.payloadType && sequenceNumber == r.sequenceNumber
                     && timestamp == r.timestamp && ssrc == r.ssrc && payloadOffset == PayloadOffset(data).value
                     && paddingSize == PaddingSize(data, payloadOffset) == |r.padding| && payloadSize == |r.payload|
    {
      hide Octet, LeadOf, Get2, Get4, PayloadOffset, CsrcEnd;
      var size := |data|;
      var header := ReadHeader(data);
      if !header {
        return false;
      }
      if LeadOf(data).padded && payloadOffset < size {
        paddingSize := Octet(data[size - 1]);
        if paddingSize == 0 {
          return false;
        }
      } else {
        paddingSize := 0;
      }
      if payloadOffset + paddingSize > size {
        return false;
      }
      payloadSize := size - payloadOffset - paddingSize;
      ok := true;
    }

    /**
     * Accepts exactly the packets of the layout, describes and keeps them; a refused packet leaves the object
     * cleared. The source returns false on refusal and nothing at all on success, so there `ok` is arbitrary.
     */
    method Parse(data: seq<byte>) returns (ok: bool)
      modifies this
      ensures forall r: Rtp :: r.Valid() && r.Wire() == data ==> Describes(r) && buffer == data
      ensures (!exists r: Rtp :: r.Valid() && r.Wire() == data) ==> !ok && Cleared() && buffer == old(buffer)
    {
      hide Rtp.Valid, Rtp.Wire, Rtp.Header, Decode, PaddingSize;
      Exactness(data);
      var accepted := ParseBuffer(data);
      if !accepted {
        Clear();
        return false;
      }
      DescribesDecoded(data);
      buffer := data;
      assert Describes(Decode(data).value);
      ok := *;
    }

    method Clear()
      modifies this
      ensures Cleared() && buffer == old(buffer)
    {
      marker := false;
      payloadType := 0;
      sequenceNumber := 0;
      timestamp := 0;
      ssrc := 0;
      payloadOffset := 12;
      payloadSize := 0;
      paddingSize := 0;
    }
  }

  lemma DescribesDecoded(s: seq<byte>)
    requires Decode(s).Some?
    ensures var r, off := Decode(s).value, PayloadOffset(s).value;
            && r.Valid() && r.Wire() == s && |r.Header()| == off && |r.padding| == PaddingSize(s, off)
            && off + |r.payload| <= |s| && s[off..off + |r.payload|] == r.payload
  {
    hide Octet, LeadOf, Rtp.Valid, Rtp.Wire, Rtp.Header, Get2, Get4, PaddingSize;
    WireOfDecode(s);
    HeaderOfDecode(s);
  }
}
