/** What every run of the ICE server keeps: replies, keys and credential rotation. */
module IceProperties {
  import opened Bytes
  import opened StunGrammar
  import opened StunMessage
  import opened IceServers
  import StunAuth

  // ---- replies ----------------------------------------------------------------------------------

  /** The message a verdict sends back. */
  function ReplyBytes(p: Packet, v: Verdict, tuple: Address, hmac: Hmac): seq<byte>
    requires Answerable(p, v, tuple) && !v.Ignored?
  {
    MessageBytes(Reply(p, v, tuple).value, [], hmac)
  }

  /** Exactly one message goes out for a request, to its sender, and none for anything else. */
  lemma OneReplyPerRequest(ice: Ice, s: seq<byte>, tuple: Address, hmac: Hmac)
    requires Parsed(s).Some? && tuple.Valid()
    ensures Parsed(s).value.klass != Request ==> Events(ice, s, tuple, hmac) == []
    ensures Parsed(s).value.klass == Request ==>
              var e, p, v := Events(ice, s, tuple, hmac), Parsed(s).value, Judge(ice, s, hmac);
              && !v.Ignored? && Answerable(p, v, tuple) && |e| >= 1
              && e[0] == Send(ReplyBytes(p, v, tuple, hmac), tuple) && forall i :: 1 <= i < |e| ==> !e[i].Send?
  {
    hide Parsed, ReplyBytes, SendReply, Authentic, Complete;
    ParsedShape(s);
    ReplyOrSilence(Parsed(s).value, Judge(ice, s, hmac), tuple, hmac);
  }

  lemma ReplyOrSilence(p: Packet, v: Verdict, tuple: Address, hmac: Hmac)
    requires Answerable(p, v, tuple)
    ensures SendReply(p, v, tuple, hmac) == if v.Ignored? then [] else [Send(ReplyBytes(p, v, tuple, hmac), tuple)]
  {
    hide MessageBytes;
  }

  /**
   * The reply reads back as a response with the request's method and transaction id. The one exception
   * is a request with a method of 0x80 or more: its response has a first octet IsStun itself refuses.
   */
  lemma ReplyReadsBack(p: Packet, v: Verdict, tuple: Address, hmac: Hmac)
    requires Answerable(p, v, tuple) && !v.Ignored?
    ensures Parsed(ReplyBytes(p, v, tuple, hmac)).Some? <==> p.msgMethod < 0x80
    ensures p.msgMethod < 0x80 ==> var q := Parsed(ReplyBytes(p, v, tuple, hmac)).value;
              && q.klass == (if v.Accepted? then SuccessResponse else ErrorResponse)
              && q.msgMethod == p.msgMethod && q.tid == p.tid && q.fingerprint
              && q.fields.errorCode == (if v.Rejected? then v.code else 0)
              && (q.integrity.Some? <==> v.Accepted? && v.key != [])
  {
    hide MessageBytes, Parsed, ErrorValue, Code, Size;
    var o := Reply(p, v, tuple).value;
    RoundTrip(o, [], hmac);
    CarriedExactly(o);
  }

  /** A smallest such request: a bare header with method 0x80. It is refused, and the refusal cannot be read. */
  lemma UnreadableRefusal(ice: Ice, tuple: Address, hmac: Hmac)
    requires tuple.Valid()
    ensures var s := [0x02, 0x00, 0, 0] + MAGIC_COOKIE + seq(12, _ => 0);
            && Parsed(s).Some? && Parsed(s).value.klass == Request && Parsed(s).value.msgMethod == 0x80
            && Judge(ice, s, hmac) == Rejected(400) && Answerable(Parsed(s).value, Rejected(400), tuple)
            && Parsed(ReplyBytes(Parsed(s).value, Rejected(400), tuple, hmac)).None?
  {
    var s := [0x02, 0x00, 0, 0] + MAGIC_COOKIE + seq(12, _ => 0);
    BareHeader(s);
    hide ReplyBytes, Parsed, MAGIC_COOKIE;
    ReplyReadsBack(Parsed(s).value, Rejected(400), tuple, hmac);
  }

  lemma BareHeader(s: seq<byte>)
    requires |s| == 20 && s[0] == 2 && s[1] == 0 && s[2] == 0 && s[3] == 0 && s[4..8] == MAGIC_COOKIE
    ensures Parsed(s) == Some(Packet(Request, 0x80, s[8..20], NO_FIELDS, None, false))
  {
    assert s[20..] == [];
    assert MethodOf(2, 0) == 0x80 && ClassOf(2, 0) == Request;
    hide MethodOf, ClassOf;
    assert IsMessage(s, []);
    ParsedIsGrammar(s);
  }

  /** The server itself refuses with 400 and 401 only, codes that survive serialisation. */
  lemma RefusalCodes(ice: Ice, s: seq<byte>, hmac: Hmac)
    requires Parsed(s).Some? && Judge(ice, s, hmac).Rejected?
    ensures var code := Judge(ice, s, hmac).code; (code == 400 || code == 401) && Code(Some(ErrorValue(code))) == code
  {
    hide Parsed, Authentic, Complete;
    ErrorCodeRoundTrip(400);
    ErrorCodeRoundTrip(401);
  }

  /** Un-XORing the address in a success reply gives the sender's address. */
  lemma AddressComesBack(p: Packet, v: Verdict, tuple: Address, hmac: Hmac) returns (xs: seq<Attribute>)
    requires Answerable(p, v, tuple) && v.Accepted? && p.msgMethod == BINDING && !tuple.OtherFamily?
    ensures IsMessage(ReplyBytes(p, v, tuple, hmac), xs)
    ensures Has(xs, XOR_MAPPED_ADDRESS) && Unmapped(LastValue(xs, XOR_MAPPED_ADDRESS).value, p.tid) == Some(tuple)
  {
    hide MessageBytes, AllSlots, Keep, LastValue, IsMessage, Mapped, Unmapped;
    var o := Reply(p, v, tuple).value;
    xs := Keep(AllSlots(o, [], hmac));
    SentIsMessage(o, [], hmac);
    BodyValue(o, [], hmac, 5);
    UnmappedMapped(tuple, p.tid);
  }

  /** A request is accepted only under the current or the saved pair; `key` is the password that verified it. */
  lemma AcceptedOnlyUnder(ice: Ice, s: seq<byte>, hmac: Hmac)
    requires Parsed(s).Some? && Judge(ice, s, hmac).Accepted?
    ensures var v, p := Judge(ice, s, hmac), Parsed(s).value;
            && p.klass == Request && Complete(p)
            && Authentic(s, if v.current then ice.ufrag else ice.oldUfrag, v.key, hmac)
            && v.key == (if v.current then ice.pwd else ice.oldPwd) && (!v.current ==> v.key != [])
  {
    hide Parsed, Authentic;
  }

  /** Every verdict, in terms of what the request carries and which pair it is authentic under. */
  lemma VerdictExactly(ice: Ice, s: seq<byte>, hmac: Hmac)
    requires Parsed(s).Some?
    ensures var p, v := Parsed(s).value, Judge(ice, s, hmac);
            var carries := p.msgMethod == 1 && p.fingerprint && p.integrity.Some? && p.fields.priority != 0
                           && p.fields.username != [];
            var current := Authentic(s, ice.ufrag, ice.pwd, hmac);
            var saved := ice.oldUfrag != [] && ice.oldPwd != [] && Authentic(s, ice.oldUfrag, ice.oldPwd, hmac);
            && (v.Ignored? <==> p.klass != Request)
            && (v == Rejected(400) <==> p.klass == Request && !carries)
            && (v == Rejected(401) <==> p.klass == Request && carries && !current && !saved)
            && (v.Accepted? && v.current <==> p.klass == Request && carries && current)
            && (v.Accepted? && !v.current <==> p.klass == Request && carries && !current && saved)
            && (v.Accepted? ==> v.key == if current then ice.pwd else ice.oldPwd)
  {
    hide Parsed, Authentic;
  }

  /** An accepted request carries USERNAME, a non-zero PRIORITY, MESSAGE-INTEGRITY and, last, FINGERPRINT. */
  lemma AcceptedCarries(ice: Ice, s: seq<byte>, xs: seq<Attribute>, hmac: Hmac)
    requires Parsed(s).Some? && Judge(ice, s, hmac).Accepted? && IsMessage(s, xs)
    ensures MethodOf(s[0], s[1]) == 1 && ClassOf(s[0], s[1]) == Request
    ensures Has(xs, 0x0006) && LastValue(xs, 0x0006).value != []
    ensures Has(xs, 0x0024) && |LastValue(xs, 0x0024).value| >= 4 && Get4(LastValue(xs, 0x0024).value, 0) != 0
    ensures Has(xs, 0x0008) && xs[|xs| - 1].typ == 0x8028
  {
    ParsedIsGrammar(s);
    hide Parsed, Authentic, IsMessage, LastValue, Get4, Get8, MethodOf, ClassOf;
    LastFingerprint(s, xs);
  }

  lemma LastFingerprint(s: seq<byte>, xs: seq<Attribute>)
    requires IsMessage(s, xs)
    ensures Has(xs, FINGERPRINT) ==> xs != [] && xs[|xs| - 1].typ == FINGERPRINT
  {
    hide Wire, Rules, FingerprintOk, LastValue;
    if Has(xs, FINGERPRINT) {
      LastIs(xs, FINGERPRINT);
    }
  }

  /** A request with everything in it, as a peer serialises it. */
  predicate CompleteRequest(o: Outgoing) {
    o.Valid() && o.klass == Request && o.msgMethod == 1 && o.fields.priority != 0 && o.password != []
  }

  /** Who is let in: whoever signs with the current pair, and whoever still signs with a saved one. */
  lemma SentIsAccepted(ice: Ice, o: Outgoing, pad: seq<byte>, hmac: Hmac)
    requires CompleteRequest(o) && PadFits(o, pad)
    requires || (PrefixOk(o.fields.username, ice.ufrag) && o.password == ice.pwd)
             || (ice.oldUfrag != [] && PrefixOk(o.fields.username, ice.oldUfrag) && o.password == ice.oldPwd)
    ensures Parsed(MessageBytes(o, pad, hmac)).Some? && Judge(ice, MessageBytes(o, pad, hmac), hmac).Accepted?
  {
    hide MessageBytes, Parsed, Authentic, CheckAuth, Size, ErrorValue, Code;
    var s, p := MessageBytes(o, pad, hmac), Sent(o, pad);
    StunAuth.SentAuthenticates(o, pad, ice.ufrag, o.password, hmac);
    StunAuth.SentAuthenticates(o, pad, ice.oldUfrag, o.password, hmac);
    SentIsComplete(o, pad);
    CompleteAuthentication(s, p, ice.ufrag, o.password, hmac);
    CompleteAuthentication(s, p, ice.oldUfrag, o.password, hmac);
  }

  lemma SentIsComplete(o: Outgoing, pad: seq<byte>)
    requires CompleteRequest(o) && PadFits(o, pad) && o.fields.username != []
    ensures Sent(o, pad).klass == Request && Complete(Sent(o, pad))
  {
    hide ErrorValue, Code, Size;
  }

  /** Changing both credentials keeps the old pair valid beside the new one. */
  lemma RotationAcceptsBoth(ice: Ice, u: seq<byte>, q: seq<byte>, o: Outgoing, pad: seq<byte>, hmac: Hmac)
    requires CompleteRequest(o) && PadFits(o, pad)
    requires || (PrefixOk(o.fields.username, u) && o.password == q)
             || (ice.ufrag != [] && PrefixOk(o.fields.username, ice.ufrag) && o.password == ice.pwd)
    ensures var after := Step(Step(ice, SetFragment(u), hmac), SetPassword(q), hmac);
            && Parsed(MessageBytes(o, pad, hmac)).Some?
            && Judge(after, MessageBytes(o, pad, hmac), hmac).Accepted?
  {
    hide MessageBytes, Parsed, Judge, PrefixOk, CompleteRequest;
    SentIsAccepted(Step(Step(ice, SetFragment(u), hmac), SetPassword(q), hmac), o, pad, hmac);
  }

  /** The success reply verifies under that same password. */
  lemma ReplyVerifies(p: Packet, v: Verdict, tuple: Address, hmac: Hmac)
    requires Answerable(p, v, tuple) && v.Accepted? && v.key != [] && p.msgMethod == BINDING
    ensures var r := ReplyBytes(p, v, tuple, hmac);
            52 <= |r| < 0x10000 && Verifies(r, |r| - 28, v.key, hmac)
  {
    hide MessageBytes, Verifies;
    SentVerifies(Reply(p, v, tuple).value, [], hmac);
  }

  // ---- credential rotation over runs ------------------------------------------------------------

  datatype Input = SetFragment(ufrag: seq<byte>) | SetPassword(pwd: seq<byte>) | Datagram(s: seq<byte>)

  function Step(ice: Ice, i: Input, hmac: Hmac): Ice {
    match i
    case SetFragment(u) => ice.(oldUfrag := ice.ufrag, ufrag := u)
    case SetPassword(p) => ice.(oldPwd := ice.pwd, pwd := p)
    case Datagram(s) => if Parsed(s).None? then ice else After(ice, Judge(ice, s, hmac))
  }

  /** The state before input `n` of a run. */
  function StateAt(ice: Ice, run: seq<Input>, n: nat, hmac: Hmac): Ice
    requires n <= |run|
  {
    if n == 0 then ice else Step(StateAt(ice, run, n - 1, hmac), run[n - 1], hmac)
  }

  predicate AcceptedAt(ice: Ice, run: seq<Input>, n: nat, current: bool, hmac: Hmac)
    requires n < |run|
  {
    run[n].Datagram? && Parsed(run[n].s).Some?
    && var v := Judge(StateAt(ice, run, n, hmac), run[n].s, hmac); v.Accepted? && v.current == current
  }

  /**
   * Where a saved password comes from: it was in force before the latest SetPassword, and no request
   * has been accepted under the newer credentials since.
   */
  lemma {:induction false} SavedPassword(ice: Ice, run: seq<Input>, n: nat, hmac: Hmac) returns (j: nat)
    requires n <= |run| && ice.oldPwd == [] && StateAt(ice, run, n, hmac).oldPwd != []
    ensures j < n && run[j].SetPassword? && StateAt(ice, run, n, hmac).oldPwd == StateAt(ice, run, j, hmac).pwd
    ensures forall k :: j < k < n ==> !run[k].SetPassword? && !AcceptedAt(ice, run, k, true, hmac)
  {
    hide Parsed, Judge;
    j := n - 1;
    if !run[n - 1].SetPassword? {
      assert !AcceptedAt(ice, run, n - 1, true, hmac);
      hide Step, AcceptedAt;
      j := SavedPassword(ice, run, n - 1, hmac);
    }
  }

  /** Once a request is accepted under the current pair, the saved pair is refused until the next SetPassword. */
  lemma OldPairRefused(ice: Ice, run: seq<Input>, i: nat, k: nat, hmac: Hmac)
    requires i < k < |run| && AcceptedAt(ice, run, i, true, hmac)
    requires forall j :: i < j < k ==> !run[j].SetPassword?
    ensures !AcceptedAt(ice, run, k, false, hmac)
  {
    hide Parsed, Authentic;
    OldPasswordStaysEmpty(ice, run, i, k, hmac);
  }

  lemma {:induction false} OldPasswordStaysEmpty(ice: Ice, run: seq<Input>, i: nat, k: nat, hmac: Hmac)
    requires i < k <= |run| && AcceptedAt(ice, run, i, true, hmac)
    requires forall j :: i < j < k ==> !run[j].SetPassword?
    ensures StateAt(ice, run, k, hmac).oldPwd == []
  {
    hide Parsed, Judge;
    if i + 1 < k {
      OldPasswordStaysEmpty(ice, run, i, k - 1, hmac);
    }
  }

  /** Completed is never left. */
  lemma {:induction false} CompletedIsFinal(ice: Ice, run: seq<Input>, n: nat, hmac: Hmac)
    requires n <= |run| && ice.state == Completed
    ensures StateAt(ice, run, n, hmac).state == Completed
  {
    hide Parsed, Judge;
    if n != 0 {
      CompletedIsFinal(ice, run, n - 1, hmac);
    }
  }
}
