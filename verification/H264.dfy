/** H.264 payloads (RFC 6184): single units, STAP-A aggregation and FU-A fragmentation. */
module H264 {
  import opened Bytes

  const STAP_A: byte := 24
  const FU_A: byte := 28
  const IDR: byte := 5

  function NalType(b: byte): byte {
    b & 0x1F
  }

  // ---- STAP-A (section 5.7.1 of RFC 6184): length-prefixed units --------------------------------

  type Unit = u: seq<byte> | |u| < 0x10000 witness []

  function UnitsWire(us: seq<Unit>): seq<byte> {
    if us == [] then [] else Put2(|us[0]|) + us[0] + UnitsWire(us[1..])
  }

  function DecodeUnits(b: seq<byte>): Option<seq<Unit>> {
    if b == [] then Some([])
    else if |b| < 2 || 2 + Get2(b, 0) > |b| then None
    else
      var rest := DecodeUnits(b[2 + Get2(b, 0)..]);
      if rest.None? then None else Some([b[2..2 + Get2(b, 0)]] + rest.value)
  }

  lemma FirstUnit(u: Unit, rest: seq<byte>)
    ensures var b := Put2(|u|) + u + rest;
            |b| >= 2 && Get2(b, 0) == |u| && b[2..2 + |u|] == u && b[2 + |u|..] == rest
  {
    hide Get2, Put2;
    var b := Put2(|u|) + u + rest;
    assert b[0..2] == Put2(|u|);
    Get2Local(b, 0);
  }

  lemma {:induction false} DecodeOfUnits(us: seq<Unit>)
    ensures DecodeUnits(UnitsWire(us)) == Some(us)
  {
    hide Get2, Put2;
    if us != [] {
      DecodeOfUnits(us[1..]);
      FirstUnit(us[0], UnitsWire(us[1..]));
      assert us == [us[0]] + us[1..];
    }
  }

  lemma {:induction false} UnitsOfDecode(b: seq<byte>)
    ensures DecodeUnits(b).Some? ==> UnitsWire(DecodeUnits(b).value) == b
  {
    hide Get2, Put2;
    if b != [] && DecodeUnits(b).Some? {
      var n := Get2(b, 0);
      var us := DecodeUnits(b).value;
      UnitsOfDecode(b[2 + n..]);
      Get2Local(b, 0);
      Get2Determines(b[0..2], n);
      assert us[1..] == DecodeUnits(b[2 + n..]).value && us[0] == b[2..2 + n];
      assert b == b[0..2] + b[2..2 + n] + b[2 + n..];
    }
  }

  lemma {:induction false} UnitsConcat(a: seq<Unit>, b: seq<Unit>)
    ensures UnitsWire(a + b) == UnitsWire(a) + UnitsWire(b)
  {
    hide Put2;
    if a == [] {
      assert a + b == b;
    } else {
      assert (a + b)[0] == a[0] && (a + b)[1..] == a[1..] + b;
      UnitsConcat(a[1..], b);
      Reassociate(Put2(|a[0]|) + a[0], UnitsWire(a[1..]), UnitsWire(b));
    }
  }

  lemma Reassociate(x: seq<byte>, y: seq<byte>, z: seq<byte>)
    ensures x + (y + z) == (x + y) + z
  {
  }

  /** Where each unit begins in the payload: behind the payload header, earlier units and its own length field. */
  function Starts(us: seq<Unit>): (r: seq<nat>)
    ensures |r| == |us|
  {
    if us == [] then [] else Starts(us[..|us| - 1]) + [3 + |UnitsWire(us[..|us| - 1])|]
  }

  lemma {:induction false} StartsAt(us: seq<Unit>, i: nat)
    requires i < |us|
    ensures Starts(us)[i] == 3 + |UnitsWire(us[..i])|
  {
    hide UnitsWire;
    var n := |us| - 1;
    if i < n {
      StartsAt(us[..n], i);
      assert us[..n][..i] == us[..i];
    }
  }

  lemma UnitLength(us: seq<Unit>, i: nat)
    requires i < |us|
    ensures |UnitsWire(us[..i + 1])| == |UnitsWire(us[..i])| + 2 + |us[i]| <= |UnitsWire(us)|
    ensures UnitsWire(us)[|UnitsWire(us[..i])| + 2..|UnitsWire(us[..i + 1])|] == us[i]
  {
    hide Put2;
    assert us[..i + 1] == us[..i] + [us[i]];
    assert us == us[..i + 1] + us[i + 1..];
    assert [us[i]][1..] == [];
    assert UnitsWire([us[i]]) == Put2(|us[i]|) + us[i] + UnitsWire([us[i]][1..]);
    UnitsConcat(us[..i], [us[i]]);
    UnitsConcat(us[..i + 1], us[i + 1..]);
  }

  /** There is at most one way to read a byte string as units. */
  lemma UnitsExact(b: seq<byte>)
    ensures DecodeUnits(b).Some? <==> exists us: seq<Unit> :: UnitsWire(us) == b
    ensures forall us: seq<Unit> :: UnitsWire(us) == b ==> DecodeUnits(b) == Some(us)
  {
    hide DecodeUnits, UnitsWire;
    UnitsOfDecode(b);
    forall us: seq<Unit> | UnitsWire(us) == b
      ensures DecodeUnits(b) == Some(us)
    {
      DecodeOfUnits(us);
    }
  }

  function Prepend(us: seq<Unit>, rest: Option<seq<Unit>>): Option<seq<Unit>> {
    if rest.None? then None else Some(us + rest.value)
  }

  lemma UnitsSnoc(us: seq<Unit>, u: Unit)
    ensures |UnitsWire(us + [u])| == |UnitsWire(us)| + 2 + |u|
    ensures Starts(us + [u]) == Starts(us) + [3 + |UnitsWire(us)|]
  {
    hide Put2;
    UnitsConcat(us, [u]);
    assert [u][1..] == [];
    assert UnitsWire([u]) == Put2(|u|) + u + UnitsWire([u][1..]);
    assert (us + [u])[..|us|] == us;
  }

  lemma NextUnit(b: seq<byte>, p: nat, us: seq<Unit>, n: nat)
    requires p + 2 + n <= |b| && n == Get2(b[p..], 0) && DecodeUnits(b) == Prepend(us, DecodeUnits(b[p..]))
    ensures DecodeUnits(b) == Prepend(us + [b[p + 2..p + 2 + n]], DecodeUnits(b[p + 2 + n..]))
  {
    hide Get2;
    assert b[p..][2 + n..] == b[p + 2 + n..] && b[p..][2..2 + n] == b[p + 2..p + 2 + n];
    var rest := DecodeUnits(b[p + 2 + n..]);
    if rest.Some? {
      var u: Unit := b[p + 2..p + 2 + n];
      assert us + ([u] + rest.value) == (us + [u]) + rest.value;
    }
  }

  /** The aggregated part of a STAP-A payload: accepted exactly when it is a list of units, and then their starts. */
  method ParseStapAStartOffsets(nalus: seq<byte>) returns (ok: bool, offsets: seq<nat>)
    ensures ok <==> exists us: seq<Unit> :: UnitsWire(us) == nalus
    ensures forall us: seq<Unit> :: UnitsWire(us) == nalus ==> offsets == Starts(us)
  {
    hide Get2, DecodeUnits, UnitsWire, Starts;
    UnitsExact(nalus);
    ScanBegins(nalus);
    var offset, naluPtr, lengthRemaining := 0, 0, |nalus|;
    offsets := [];
    ghost var us: seq<Unit> := [];
    while lengthRemaining > 0
      invariant 0 <= lengthRemaining && naluPtr + lengthRemaining == |nalus| && offset == naluPtr == |UnitsWire(us)|
      invariant DecodeUnits(nalus) == Prepend(us, DecodeUnits(nalus[naluPtr..])) && offsets == Starts(us)
      decreases lengthRemaining
    {
      UnfoldDecode(nalus[naluPtr..]);
      if lengthRemaining < 2 {
        return false, offsets;
      }
      var naluSize := Get2(nalus[naluPtr..], 0);
      naluPtr := naluPtr + 2;
      lengthRemaining := lengthRemaining - 2;
      if naluSize > lengthRemaining {
        return false, offsets;
      }
      ghost var u: Unit := nalus[naluPtr..naluPtr + naluSize];
      NextUnit(nalus, naluPtr - 2, us, naluSize);
      UnitsSnoc(us, u);
      naluPtr := naluPtr + naluSize;
      lengthRemaining := lengthRemaining - naluSize;
      offsets := offsets + [offset + 3];
      offset := offset + 2 + naluSize;
      us := us + [u];
    }
    ScanEnds(nalus, us);
    ok := true;
  }

  lemma ScanBegins(b: seq<byte>)
    ensures DecodeUnits(b) == Prepend([], DecodeUnits(b[0..])) && UnitsWire([]) == [] && Starts([]) == []
  {
    assert b[0..] == b;
    if DecodeUnits(b).Some? {
      assert [] + DecodeUnits(b).value == DecodeUnits(b).value;
    }
  }

  lemma UnfoldDecode(b: seq<byte>)
    requires b != []
    ensures |b| < 2 || 2 + Get2(b, 0) > |b| ==> DecodeUnits(b).None?
  {
  }

  lemma ScanEnds(b: seq<byte>, us: seq<Unit>)
    requires DecodeUnits(b) == Prepend(us, DecodeUnits(b[|b|..]))
    ensures DecodeUnits(b) == Some(us)
  {
    assert b[|b|..] == [] && us + [] == us;
  }

  predicate UnitOk(u: seq<byte>) {
    u != [] && NalType(u[0]) != STAP_A && NalType(u[0]) != FU_A
  }

  predicate AllOk(us: seq<seq<byte>>) {
    forall i :: 0 <= i < |us| ==> UnitOk(us[i])
  }

  /** A STAP-A payload aggregating exactly `us`. */
  predicate IsStapA(payload: seq<byte>, us: seq<Unit>) {
    payload != [] && NalType(payload[0]) == STAP_A && payload[1..] == UnitsWire(us) && us != [] && AllOk(us)
  }

  /** Consecutive offsets, less a length field, are the two ends of each unit; nothing underflows. */
  ghost predicate Delimits(payload: seq<byte>, offsets: seq<nat>, us: seq<seq<byte>>) {
    && |offsets| == |us| + 1
    && forall i :: 0 <= i < |us| ==>
         && offsets[i] + |us[i]| + 2 == offsets[i + 1] && offsets[i] + |us[i]| <= |payload|
         && payload[offsets[i]..offsets[i] + |us[i]|] == us[i]
  }

  lemma StartsDelimit(payload: seq<byte>, us: seq<Unit>)
    requires payload != [] && payload[1..] == UnitsWire(us)
    ensures Delimits(payload, Starts(us) + [|payload| + 2], us)
  {
    hide UnitsWire, Starts;
    var offs := Starts(us) + [|payload| + 2];
    forall i | 0 <= i < |us|
      ensures offs[i] + |us[i]| + 2 == offs[i + 1] && offs[i] + |us[i]| <= |payload|
      ensures payload[offs[i]..offs[i] + |us[i]|] == us[i]
    {
      StartsAt(us, i);
      UnitLength(us, i);
      if i + 1 < |us| {
        StartsAt(us, i + 1);
      } else {
        assert us[..i + 1] == us;
      }
      SliceShift(payload, 1, |UnitsWire(us[..i])| + 2, |UnitsWire(us[..i + 1])|);
    }
  }

  /** The loop over units: each must have a type octet, and none may be an aggregate or a fragment. */
  method CheckUnits(payload: seq<byte>, offsets: seq<nat>, ghost us: seq<seq<byte>>) returns (ok: bool)
    requires Delimits(payload, offsets, us)
    ensures ok <==> AllOk(us)
  {
    var i := 0;
    while i < |offsets| - 1
      invariant 0 <= i <= |us| && forall k :: 0 <= k < i ==> UnitOk(us[k])
    {
      var startOffset := offsets[i];
      assert offsets[i] + |us[i]| + 2 == offsets[i + 1];
      var endOffset := offsets[i + 1] - 2;
      if endOffset - startOffset < 1 {
        return false;
      }
      assert payload[startOffset] == us[i][0];
      var nal := NalType(payload[startOffset]);
      if nal == STAP_A || nal == FU_A {
        return false;
      }
      i := i + 1;
    }
    ok := true;
  }

  method ProcessStapAOrSingleNalu(payload: seq<byte>) returns (accepted: bool)
    requires payload != []
    ensures NalType(payload[0]) == STAP_A ==> (accepted <==> exists us: seq<Unit> :: IsStapA(payload, us))
    ensures NalType(payload[0]) != STAP_A ==> (accepted <==> NalType(payload[0]) != FU_A)
  {
    hide UnitsWire, Starts, NalType;
    var offsets: seq<nat>;
    var nalType := NalType(payload[0]);
    if nalType == STAP_A {
      if |payload| <= 3 {
        TooShort(payload);
        return false;
      }
      var ok;
      ok, offsets := ParseStapAStartOffsets(payload[1..]);
      if !ok {
        NoUnits(payload);
        return false;
      }
      nalType := NalType(payload[3]);  // inside the payload by the length test above; not used any further
      ghost var us: seq<Unit> :| UnitsWire(us) == payload[1..];
      OnlyUnits(payload, us);
      StartsDelimit(payload, us);
      offsets := offsets + [|payload| + 2];
      accepted := CheckUnits(payload, offsets, us);
      NotEmpty(payload, us);
      assert accepted == IsStapA(payload, us);
    } else {
      offsets := [0, |payload| + 2];
      assert payload[0..|payload|] == payload;
      accepted := CheckUnits(payload, offsets, [payload]);
      assert AllOk([payload]) <==> UnitOk([payload][0]);
    }
  }

  lemma TooShort(payload: seq<byte>)
    requires 1 <= |payload| <= 3
    ensures !exists us: seq<Unit> :: IsStapA(payload, us)
  {
    forall us: seq<Unit>
      ensures !IsStapA(payload, us)
    {
      if IsStapA(payload, us) {
        StapALength(payload, us);
      }
    }
  }

  lemma StapALength(payload: seq<byte>, us: seq<Unit>)
    requires IsStapA(payload, us)
    ensures |payload| > 3
  {
    hide Put2;
    assert UnitOk(us[0]);
  }

  lemma NoUnits(payload: seq<byte>)
    requires payload != [] && !exists us: seq<Unit> :: UnitsWire(us) == payload[1..]
    ensures !exists us: seq<Unit> :: IsStapA(payload, us)
  {
    hide UnitsWire;
    forall us: seq<Unit>
      ensures !IsStapA(payload, us)
    {
      assert UnitsWire(us) != payload[1..];
    }
  }

  lemma NotEmpty(payload: seq<byte>, us: seq<Unit>)
    requires |payload| > 1 && payload[1..] == UnitsWire(us)
    ensures us != []
  {
  }

  lemma OnlyUnits(payload: seq<byte>, us: seq<Unit>)
    requires payload != [] && payload[1..] == UnitsWire(us)
    ensures forall vs: seq<Unit> :: IsStapA(payload, vs) ==> vs == us
  {
    hide UnitsWire;
    UnitsExact(payload[1..]);
  }

  // ---- FU-A (section 5.8 of RFC 6184): fragments ------------------------------------------------

  /** What the depacketizer reports: an optional restored header octet, and where the payload data lies. */
  datatype Parsed = Parsed(header: seq<byte>, offset: nat, size: nat, key: bool, first: bool)

  function ParseFua(payload: seq<byte>): Option<Parsed> {
    if |payload| < 2 then None
    else
      var fnri := payload[0] & 0xE0;
      var originalType := NalType(payload[1]);
      var first := payload[1] & 0x80 != 0;
      Some(Parsed(if first then [fnri | originalType] else [], 2, |payload| - 2, originalType == IDR, first))
  }

  lemma NalTypeIs(b: byte)
    ensures NalType(b) as int == b as int % 32
  {
  }

  /** A fragment in numbers: the start bit is the highest, the type the five lowest, F and NRI the indicator's. */
  lemma FuaInNumbers(payload: seq<byte>)
    requires |payload| >= 2
    ensures ParseFua(payload).Some?
    ensures var p, x, y := ParseFua(payload).value, payload[0] as int, payload[1] as int;
            && p.offset == 2 && p.size == |payload| - 2 && (p.key <==> y % 32 == 5) && (p.first <==> y >= 128)
            && (p.first ==> |p.header| == 1 && p.header[0] as int == x - x % 32 + y % 32)
            && (!p.first ==> p.header == [])
  {
    hide NalType;
    NalTypeIs(payload[1]);
    StartBit(payload[1]);
    RestoredHeader(payload[0], NalType(payload[1]));
    SmallType(payload[1]);
    IdrIsFive(NalType(payload[1]));
  }

  lemma StartBit(b: byte)
    ensures b & 0x80 != 0 <==> b as int >= 128
  {
  }

  lemma SmallType(b: byte)
    ensures NalType(b) < 32
  {
  }

  lemma IdrIsFive(t: byte)
    ensures t == IDR <==> t as int == 5
  {
    SameByteIff(t, 5);
  }

  lemma SameByteIff(a: byte, b: byte)
    ensures a == b <==> a as int == b as int
  {
    if a as int == b as int {
      SameByte(a, b);
    }
  }

  lemma RestoredHeader(f: byte, t: byte)
    requires t < 32
    ensures ((f & 0xE0) | t) as int == f as int - f as int % 32 + t as int
  {
  }

  /** An aggregate in numbers: type 24, then at least one unit, none of them empty or of type 24 or 28. */
  lemma StapAInNumbers(payload: seq<byte>, us: seq<Unit>)
    ensures IsStapA(payload, us)
       <==> && payload != [] && payload[0] as int % 32 == 24 && payload[1..] == UnitsWire(us) && us != []
            && forall i :: 0 <= i < |us| ==> us[i] != [] && us[i][0] as int % 32 != 24 && us[i][0] as int % 32 != 28
  {
    hide NalType, UnitsWire;
    forall b: byte
      ensures (NalType(b) == STAP_A <==> b as int % 32 == 24) && (NalType(b) == FU_A <==> b as int % 32 == 28)
    {
      NalTypeIs(b);
      SameByteIff(NalType(b), STAP_A);
      SameByteIff(NalType(b), FU_A);
    }
  }

  /** The original unit's octets a fragment contributes. */
  function Contribution(payload: seq<byte>): seq<byte> {
    match ParseFua(payload)
    case None => []
    case Some(p) => p.header + payload[p.offset..p.offset + p.size]
  }

  function Reassembled(payloads: seq<seq<byte>>): seq<byte> {
    if payloads == [] then [] else Reassembled(payloads[..|payloads| - 1]) + Contribution(payloads[|payloads| - 1])
  }

  /** A sender's fragment of a unit with header `h`; the end and reserved bits are whatever the sender chose. */
  function Fragment(h: byte, piece: seq<byte>, start: bool, bits: byte): seq<byte> {
    [(h & 0xE0) | FU_A, (if start then 0x80 else 0) | (bits & 0x60) | (h & 0x1F)] + piece
  }

  /** The fragments of a unit cut into pieces: the start bit only on the first. */
  function Fragments(h: byte, pieces: seq<seq<byte>>, bits: seq<byte>): seq<seq<byte>>
    requires |bits| == |pieces|
  {
    seq(|pieces|, i requires 0 <= i < |pieces| => Fragment(h, pieces[i], i == 0, bits[i]))
  }

  function Joined(pieces: seq<seq<byte>>): seq<byte> {
    if pieces == [] then [] else Joined(pieces[..|pieces| - 1]) + pieces[|pieces| - 1]
  }

  lemma FragmentBits(h: byte, start: bool, bits: byte)
    ensures NalType((h & 0xE0) | FU_A) == FU_A && ((h & 0xE0) | FU_A) & 0xE0 == h & 0xE0
    ensures var b := (if start then 0x80 else 0) | (bits & 0x60) | (h & 0x1F);
            NalType(b) == NalType(h) && (b & 0x80 != 0) == start && (h & 0xE0) | NalType(b) == h
  {
  }

  /** One fragment, through the depacketizer. */
  lemma FragmentParsed(h: byte, piece: seq<byte>, start: bool, bits: byte)
    ensures var f := Fragment(h, piece, start, bits);
            && f != [] && NalType(f[0]) == FU_A
            && ParseFua(f) == Some(Parsed(if start then [h] else [], 2, |piece|, NalType(h) == IDR, start))
            && Contribution(f) == (if start then [h] else []) + piece
  {
    hide NalType;
    FragmentBits(h, start, bits);
    var f := Fragment(h, piece, start, bits);
    assert f[2..2 + |piece|] == piece;
  }

  /** For every unit and every way of cutting it, the fragments rebuild it and agree on the frame type. */
  lemma {:induction false} Reassembly(h: byte, pieces: seq<seq<byte>>, bits: seq<byte>)
    requires |bits| == |pieces|
    ensures Reassembled(Fragments(h, pieces, bits)) == (if pieces == [] then [] else [h] + Joined(pieces))
    ensures forall i :: 0 <= i < |pieces| ==>
              var f := Fragments(h, pieces, bits)[i];
              f != [] && NalType(f[0]) == FU_A && ParseFua(f).Some?
              && ParseFua(f).value.key == (NalType(h) == IDR) && ParseFua(f).value.first == (i == 0)
  {
    hide Fragment, ParseFua, Contribution, NalType, Joined, Reassembled;
    var fs := Fragments(h, pieces, bits);
    forall i | 0 <= i < |pieces|
      ensures fs[i] != [] && NalType(fs[i][0]) == FU_A && ParseFua(fs[i]).Some?
      ensures ParseFua(fs[i]).value.key == (NalType(h) == IDR) && ParseFua(fs[i]).value.first == (i == 0)
    {
      FragmentParsed(h, pieces[i], i == 0, bits[i]);
    }
    Unfolded(pieces, fs);
    if pieces != [] {
      var n := |pieces| - 1;
      Reassembly(h, pieces[..n], bits[..n]);
      FragmentParsed(h, pieces[n], n == 0, bits[n]);
      assert fs[..n] == Fragments(h, pieces[..n], bits[..n]);
      PieceAppended(h, n == 0, Joined(pieces[..n]), pieces[n]);
      if n == 0 {
        Unfolded(pieces[..n], fs[..n]);
      }
    }
  }

  lemma Unfolded(pieces: seq<seq<byte>>, fs: seq<seq<byte>>)
    requires |pieces| == |fs|
    ensures if pieces == [] then Joined(pieces) == [] && Reassembled(fs) == []
            else var n := |pieces| - 1;
                 && Joined(pieces) == Joined(pieces[..n]) + pieces[n]
                 && Reassembled(fs) == Reassembled(fs[..n]) + Contribution(fs[n])
  {
    hide Contribution;
  }

  lemma PieceAppended(h: byte, first: bool, before: seq<byte>, piece: seq<byte>)
    ensures first && before == [] ==> [] + ([h] + piece) == [h] + (before + piece)
    ensures ([h] + before) + ([] + piece) == [h] + (before + piece)
  {
    Reassociate([h], before, piece);
    assert [] + piece == piece;
  }

  /** The top level: fragments go one way, single units and aggregates the other. */
  method Depacketize(payload: seq<byte>) returns (accepted: bool, fragment: Option<Parsed>)
    ensures payload == [] ==> !accepted
    ensures payload != [] && NalType(payload[0]) == FU_A ==>
              fragment == ParseFua(payload) && (accepted <==> |payload| >= 2)
    ensures payload != [] && NalType(payload[0]) == STAP_A ==>
              (accepted <==> exists us: seq<Unit> :: IsStapA(payload, us))
    ensures payload != [] && NalType(payload[0]) != FU_A && NalType(payload[0]) != STAP_A ==> accepted
    ensures payload == [] || NalType(payload[0]) != FU_A ==> fragment == None
  {
    hide NalType;
    accepted, fragment := false, None;
    if |payload| == 0 {
      return;
    }
    if NalType(payload[0]) == FU_A {
      fragment := ParseFua(payload);
      accepted := fragment.Some?;
    } else {
      accepted := ProcessStapAOrSingleNalu(payload);
    }
  }
}
