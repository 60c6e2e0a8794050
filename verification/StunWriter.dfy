/** Writing STUN attributes into a buffer at a moving position. */
module StunWriter {
  import opened Bytes
  import opened StunGrammar
  import opened StunMessage

  function IceSize(f: Fields): nat {
    (if f.username != [] then 4 + Pad4(|f.username|) else 0)
    + (if f.priority != 0 then 8 else 0)
    + (if f.iceControlling != 0 then 12 else 0)
    + (if f.iceControlled != 0 then 12 else 0)
    + (if f.useCandidate then 4 else 0)
  }

  /** The size computed up front by Serialize. */
  function NeededSize(o: Outgoing): (n: nat)
    requires o.Valid()
    ensures 28 <= n < 0x10000 && 24 + Pad4(|o.fields.username|) <= n
  {
    20 + IceSize(o.fields)
    + (if o.HasAddress() then if o.address.value.V4? then 12 else 24 else 0)
    + (if o.HasErrorCode() then 8 else 0)
    + (if o.HasIntegrity() then 24 else 0) + 8
  }

  /** What lies behind a username once it is written: octets the buffer held before. */
  ghost function StalePad(o: Outgoing, b: seq<byte>): (pad: seq<byte>)
    requires o.Valid() && NeededSize(o) <= |b|
    ensures PadFits(o, pad)
  {
    b[24 + |o.fields.username|..24 + Pad4(|o.fields.username|)]
  }

  function SlotSize(slot: Slot): nat {
    if slot.used then 4 + Pad4(|slot.attr.value|) else 0
  }

  lemma PrefixSize(slots: seq<Slot>, k: nat)
    requires k < |slots|
    ensures |Wire(Keep(slots[..k + 1]))| == |Wire(Keep(slots[..k]))| + SlotSize(slots[k])
  {
    hide Wire, Keep, Attr.Wire;
    KeepSnoc(slots, k);
    if slots[k].used {
      WireSnoc(Keep(slots[..k]), slots[k].attr);
    } else {
      assert Keep(slots[..k]) + [] == Keep(slots[..k]);
    }
  }

  /** The announced size is the size of what gets written. */
  lemma SizeIsNeeded(o: Outgoing, pad: seq<byte>)
    requires o.Valid() && PadFits(o, pad)
    ensures Size(o, pad) == NeededSize(o)
  {
    hide Wire, Keep, Put4, Put8, ErrorValue, Mapped, IceSize;
    var slots := Slots(o, pad);
    IceSlotsSize(o, pad);
    PrefixSize(slots, 5);
    PrefixSize(slots, 6);
    assert slots[..7] == slots;
  }

  lemma IceSlotsSize(o: Outgoing, pad: seq<byte>)
    requires o.Valid() && PadFits(o, pad)
    ensures |Wire(Keep(Slots(o, pad)[..5]))| == IceSize(o.fields)
  {
    hide Wire, Keep, Put4, Put8, ErrorValue, Mapped;
    var slots := Slots(o, pad);
    PrefixSize(slots, 0);
    PrefixSize(slots, 1);
    PrefixSize(slots, 2);
    PrefixSize(slots, 3);
    PrefixSize(slots, 4);
    assert slots[..0] == [];
    NothingKept();
  }

  lemma NothingKept()
    ensures Wire(Keep([])) == []
  {
  }

  /** Type, length and value of `a` at `pos`; the padding octets are skipped, not cleared. */
  method WriteAttr(buffer: array<byte>, pos: nat, typ: int, value: seq<byte>, ghost a: Attribute,
                   ghost xs: seq<Attribute>) returns (next: nat)
    requires a.typ == typ && a.value == value
    requires 20 <= pos && pos + 4 + Pad4(|value|) <= buffer.Length && buffer[20..pos] == Wire(xs)
    requires a.pad == buffer[pos + 4 + |value|..pos + 4 + Pad4(|value|)]
    modifies buffer
    ensures next == pos + 4 + Pad4(|value|) && buffer[20..next] == Wire(xs + [a])
    ensures buffer[..pos] == old(buffer[..pos]) && buffer[next..] == old(buffer[next..])
  {
    hide Wire, Put2, Pad4, Patch, Attr.Wire;
    next := pos + 4 + Pad4(|value|);
    ghost var b := buffer[..];
    SliceOfAll(buffer, 20, pos);
    SliceOfAll(buffer, pos, next);
    SliceOfAll(buffer, pos + 4 + |value|, next);
    WriteTlv(buffer, pos, typ, value);
    AttrWritten(b, buffer[..], pos, next, a, xs);
    SliceOfAll(buffer, 20, next);
    SliceOfAll(buffer, pos, next);
  }

  lemma SliceOfAll(buffer: array<byte>, i: nat, j: nat)
    requires i <= j <= buffer.Length
    ensures buffer[..][i..j] == buffer[i..j] && buffer[..][..i] == buffer[..i] && buffer[..][j..] == buffer[j..]
  {
  }

  method WriteTlv(buffer: array<byte>, pos: nat, typ: int, value: seq<byte>)
    requires pos + 4 + |value| <= buffer.Length && 0 <= typ < 0x10000 && |value| < 0x10000
    modifies buffer
    ensures buffer[..] == Patch(old(buffer[..]), pos, Put2(typ) + Put2(|value|) + value)
  {
    hide Put2, Patch;
    ghost var b := buffer[..];
    Set2Bytes(buffer, pos, typ);
    Set2Bytes(buffer, pos + 2, |value|);
    Copy(buffer, pos + 4, value);
    PatchNext(b, pos, Put2(typ), Put2(|value|));
    PatchNext(b, pos, Put2(typ) + Put2(|value|), value);
  }

  lemma AttrWritten(b: seq<byte>, c: seq<byte>, pos: nat, next: nat, a: Attribute, xs: seq<Attribute>)
    requires 20 <= pos && pos + 4 + |a.value| <= next == pos + 4 + Pad4(|a.value|) <= |b| && b[20..pos] == Wire(xs)
    requires a.pad == b[pos + 4 + |a.value|..next]
    requires c == Patch(b, pos, Put2(a.typ) + Put2(|a.value|) + a.value)
    ensures c[..pos] == b[..pos] && c[next..] == b[next..] && c[20..next] == Wire(xs + [a])
  {
    hide *;
    var w := Put2(a.typ) + Put2(|a.value|) + a.value;
    var end := pos + |w|;
    PatchParts(b, pos, w);
    StaleTail(b, c, end, next);
    HeadKept(b, c, 20, pos);
    ThreeSlices(c, 20, pos, end, next);
    WireSnoc(xs, a);
    PaddedWire(a);
    Associate(Wire(xs), w, a.pad);
  }

  lemma PaddedWire(a: Attribute)
    ensures a.Wire() == (Put2(a.typ) + Put2(|a.value|) + a.value) + a.pad
  {
  }

  lemma StaleTail(b: seq<byte>, c: seq<byte>, end: nat, next: nat)
    requires end <= next <= |b| == |c| && c[end..] == b[end..]
    ensures c[end..next] == b[end..next] && c[next..] == b[next..]
  {
    TailKept(b, c, end, next);
    SliceShift(b, end, 0, next - end);
    SliceShift(c, end, 0, next - end);
  }

  lemma ThreeSlices(c: seq<byte>, i: nat, j: nat, k: nat, l: nat)
    requires i <= j <= k <= l <= |c|
    ensures c[i..l] == c[i..j] + c[j..k] + c[k..l]
  {
  }

  method XorInPlace(buffer: array<byte>, at: nat, mask: seq<byte>)
    requires at + |mask| <= buffer.Length
    modifies buffer
    ensures buffer[..] == Patch(old(buffer[..]), at, XorBytes(old(buffer[at..at + |mask|]), mask))
  {
    hide Patch, XorBytes;
    ghost var b := buffer[..];
    var i := 0;
    while i < |mask|
      invariant 0 <= i <= |mask|
      invariant forall k :: 0 <= k < buffer.Length ==>
        buffer[k] == if at <= k < at + i then b[k] ^ mask[k - at] else b[k]
    {
      buffer[at + i] := buffer[at + i] ^ mask[i];
      i := i + 1;
    }
    Masked(b, buffer[..], at, mask);
    assert b[at..at + |mask|] == old(buffer[at..at + |mask|]);
  }

  lemma Masked(b: seq<byte>, c: seq<byte>, at: nat, mask: seq<byte>)
    requires at + |mask| <= |b| == |c|
    requires forall k :: 0 <= k < |b| ==> c[k] == if at <= k < at + |mask| then b[k] ^ mask[k - at] else b[k]
    ensures c == Patch(b, at, XorBytes(b[at..at + |mask|], mask))
  {
    var p := Patch(b, at, XorBytes(b[at..at + |mask|], mask));
    forall k | 0 <= k < |b|
      ensures c[k] == p[k]
    {
      if at <= k < at + |mask| {
        assert p[k] == b[at..at + |mask|][k - at] ^ mask[k - at];
      }
    }
  }

  /** Copy a field raw, then mask it in place. */
  method WriteMasked(buffer: array<byte>, at: nat, field: seq<byte>, mask: seq<byte>)
    requires at + |field| <= buffer.Length && |field| <= |mask|
    modifies buffer
    ensures buffer[..] == Patch(old(buffer[..]), at, XorBytes(field, mask))
  {
    hide Patch, XorBytes;
    ghost var b := buffer[..];
    Copy(buffer, at, field);
    PatchParts(b, at, field);
    assert buffer[at..at + |field|] == buffer[..][at..at + |field|] == field;
    XorInPlace(buffer, at, mask[..|field|]);
    XorPrefix(field, mask);
    PatchAgain(b, at, field, XorBytes(field, mask));
  }

  /** XOR-MAPPED-ADDRESS (section 15.2 of RFC 5389). */
  method WriteAddress(buffer: array<byte>, pos: nat, a: Address, tid: seq<byte>, ghost xs: seq<Attribute>)
    returns (next: nat)
    requires a.Valid() && !a.OtherFamily? && |tid| == 12
    requires 20 <= pos && pos + (if a.V4? then 12 else 24) <= buffer.Length && buffer[20..pos] == Wire(xs)
    modifies buffer
    ensures next == pos + (if a.V4? then 12 else 24)
    ensures buffer[..pos] == old(buffer[..pos]) && buffer[next..] == old(buffer[next..])
    ensures buffer[20..next] == Wire(xs + [Attr(XOR_MAPPED_ADDRESS, Mapped(a, tid), [])])
  {
    hide Wire, Put2, XorBytes, Patch;
    ghost var b := buffer[..];
    var n := if a.V4? then 8 else 20;
    var family: byte := if a.V4? then 1 else 2;
    Set2Bytes(buffer, pos, XOR_MAPPED_ADDRESS);
    Set2Bytes(buffer, pos + 2, n);
    Copy(buffer, pos + 4, [0, family]);
    WriteMasked(buffer, pos + 6, a.port, MAGIC_COOKIE);
    WriteMasked(buffer, pos + 8, a.ip, MAGIC_COOKIE + tid);
    next := pos + 4 + n;
    FivePatches(b, pos, Put2(XOR_MAPPED_ADDRESS), Put2(n), [0, family],
                XorBytes(a.port, MAGIC_COOKIE), XorBytes(a.ip, MAGIC_COOKIE + tid));
    AttrWritten(b, buffer[..], pos, next, Attr(XOR_MAPPED_ADDRESS, Mapped(a, tid), []), xs);
  }

  lemma FivePatches(b: seq<byte>, at: nat, x: seq<byte>, y: seq<byte>, z: seq<byte>, v: seq<byte>, w: seq<byte>)
    requires |x| == |y| == |z| == |v| == 2 && at + 8 + |w| <= |b|
    ensures Patch(Patch(Patch(Patch(Patch(b, at, x), at + 2, y), at + 4, z), at + 6, v), at + 8, w)
         == Patch(b, at, x + y + (z + v + w))
  {
    hide Patch;
    PatchNext(b, at, x, y);
    PatchNext(b, at, x + y, z);
    PatchNext(b, at, x + y + z, v);
    PatchNext(b, at, x + y + z + v, w);
    assert x + y + z + v + w == x + y + (z + v + w);
  }

  lemma XorPrefix(a: seq<byte>, b: seq<byte>)
    requires |a| <= |b|
    ensures XorBytes(a, b[..|a|]) == XorBytes(a, b)
  {
  }

  // ---- slots in order ---------------------------------------------------------------------------

  /** The first `k` slots are in `c`, up to `pos`; everything else is as it was in `b`. */
  ghost predicate Written(b: seq<byte>, c: seq<byte>, pos: nat, slots: seq<Slot>, k: nat) {
    && k <= |slots| && |c| == |b| && pos == 20 + |Wire(Keep(slots[..k]))| && pos <= |b|
    && 20 + |Wire(Keep(slots))| <= |b|
    && c[..20] == b[..20] && c[20..pos] == Wire(Keep(slots[..k])) && c[pos..] == b[pos..]
  }

  lemma {:induction false} PrefixFits(slots: seq<Slot>, k: nat)
    requires k <= |slots|
    ensures |Wire(Keep(slots[..k]))| <= |Wire(Keep(slots))|
    decreases |slots| - k
  {
    hide Wire, Keep;
    if k < |slots| {
      PrefixSize(slots, k);
      PrefixFits(slots, k + 1);
    } else {
      assert slots[..k] == slots;
    }
  }

  lemma SlotRoom(b: seq<byte>, c: seq<byte>, pos: nat, slots: seq<Slot>, k: nat)
    requires Written(b, c, pos, slots, k) && k < |slots|
    ensures pos + SlotSize(slots[k]) <= |b|
  {
    hide Wire, Keep;
    PrefixSize(slots, k);
    PrefixFits(slots, k + 1);
  }

  lemma SlotSkipped(b: seq<byte>, c: seq<byte>, pos: nat, slots: seq<Slot>, k: nat)
    requires Written(b, c, pos, slots, k) && k < |slots| && !slots[k].used
    ensures Written(b, c, pos, slots, k + 1)
  {
    hide Wire, Keep;
    KeepSnoc(slots, k);
    assert Keep(slots[..k]) + [] == Keep(slots[..k]);
  }

  lemma SlotWritten(b: seq<byte>, c: seq<byte>, d: seq<byte>, pos: nat, next: nat, slots: seq<Slot>, k: nat)
    requires Written(b, c, pos, slots, k) && k < |slots| && slots[k].used && |d| == |c|
    requires next == pos + SlotSize(slots[k]) <= |b|
    requires d[..pos] == c[..pos] && d[next..] == c[next..] && d[20..next] == Wire(Keep(slots[..k]) + [slots[k].attr])
    ensures Written(b, d, next, slots, k + 1)
  {
    hide Wire, Keep;
    KeepSnoc(slots, k);
    PrefixSize(slots, k);
    HeadKept(c, d, 20, pos);
    TailKept(b, c, pos, next);
  }

  /** One attribute, if its slot is used. */
  method WriteSlot(buffer: array<byte>, pos: nat, used: bool, typ: int, value: seq<byte>,
                   ghost b: seq<byte>, ghost slots: seq<Slot>, ghost k: nat) returns (next: nat)
    requires Written(b, buffer[..], pos, slots, k) && k < |slots|
    requires slots[k].used == used && slots[k].attr.typ == typ && slots[k].attr.value == value
    requires used ==> && pos + 4 + Pad4(|value|) <= |b|
                      && slots[k].attr.pad == b[pos + 4 + |value|..pos + 4 + Pad4(|value|)]
    modifies buffer
    ensures Written(b, buffer[..], next, slots, k + 1)
  {
    hide Wire, Keep, Pad4;
    ghost var c := buffer[..];
    SlotRoom(b, c, pos, slots, k);
    if used {
      ghost var xs := Keep(slots[..k]);
      assert buffer[20..pos] == c[20..pos];
      SliceShift(c, pos, 4 + |value|, 4 + Pad4(|value|));
      SliceShift(b, pos, 4 + |value|, 4 + Pad4(|value|));
      assert buffer[pos + 4 + |value|..pos + 4 + Pad4(|value|)] == slots[k].attr.pad;
      next := WriteAttr(buffer, pos, typ, value, slots[k].attr, xs);
      SliceOfAll(buffer, 20, next);
      SliceOfAll(buffer, pos, next);
      SlotWritten(b, c, buffer[..], pos, next, slots, k);
    } else {
      next := pos;
      SlotSkipped(b, c, pos, slots, k);
    }
  }
}
