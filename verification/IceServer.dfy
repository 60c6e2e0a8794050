/** The ICE-lite server: who may connect, what is answered, and how credentials rotate. */
module IceServers {
  import opened Bytes
  import opened StunGrammar
  import opened StunMessage
  import opened StunWriter
  import opened StunPackets

  datatype IceState = New | Connected | Completed | Disconnected

  /** The server's state as a value. */
  datatype Ice = Ice(ufrag: seq<byte>, pwd: seq<byte>, oldUfrag: seq<byte>, oldPwd: seq<byte>, state: IceState)

  datatype IceEvent = Send(bytes: seq<byte>, to: Address) | Selected(tuple: Address)

  // ---- specification ----------------------------------------------------------------------------

  datatype Verdict = Ignored | Rejected(code: int) | Accepted(key: seq<byte>, current: bool)

  /** `s` authenticates under a fragment and password. */
  predicate Authentic(s: seq<byte>, ufrag: seq<byte>, pwd: seq<byte>, hmac: Hmac)
    requires Parsed(s).Some?
  {
    var p := Parsed(s).value;
    && p.integrity.Some? && IntegrityFits(s, p) && PrefixOk(p.fields.username, ufrag)
    && Verifies(s, p.integrity.value, pwd, hmac)
  }

  predicate Complete(p: Packet) {
    p.msgMethod == BINDING && p.fingerprint && p.integrity.Some? && p.fields.priority != 0 && p.fields.username != []
  }

  function Judge(ice: Ice, s: seq<byte>, hmac: Hmac): Verdict
    requires Parsed(s).Some?
  {
    var p := Parsed(s).value;
    if p.klass != Request then Ignored
    else if !Complete(p) then Rejected(400)
    else if Authentic(s, ice.ufrag, ice.pwd, hmac) then Accepted(ice.pwd, true)
    else if ice.oldUfrag != [] && ice.oldPwd != [] && Authentic(s, ice.oldUfrag, ice.oldPwd, hmac)
    then Accepted(ice.oldPwd, false)
    else Rejected(401)
  }

  function Reply(p: Packet, v: Verdict, tuple: Address): Option<Outgoing> {
    match v
    case Ignored => None
    case Rejected(code) => Some(Outgoing(ErrorResponse, p.msgMethod, p.tid, NO_FIELDS.(errorCode := code), None, []))
    case Accepted(key, _) => Some(Outgoing(SuccessResponse, p.msgMethod, p.tid, NO_FIELDS, Some(tuple), key))
  }

  function After(ice: Ice, v: Verdict): Ice {
    match v
    case Accepted(_, true) => if ice.oldPwd != [] then ice.(oldUfrag := [], oldPwd := [], state := Completed)
                              else ice.(state := Completed)
    case Accepted(_, false) => ice.(state := Completed)
    case _ => ice
  }

  lemma ParsedShape(s: seq<byte>)
    requires Parsed(s).Some?
    ensures |Parsed(s).value.tid| == 12 && Parsed(s).value.msgMethod < 0x1000
  {
    hide FieldsOf, Decode, Rules, FingerprintOk;
    MethodIsTwelveBits(s[0], s[1]);
  }

  lemma MethodIsTwelveBits(hi: byte, lo: byte)
    ensures MethodOf(hi, lo) < 0x1000
  {
  }

  predicate Answerable(p: Packet, v: Verdict, tuple: Address) {
    |p.tid| == 12 && p.msgMethod < 0x1000 && tuple.Valid() && (v.Rejected? ==> 0 < v.code < 25600)
  }

  /** The reply on the wire. No username is sent, so there is no padding either. */
  function SendReply(p: Packet, v: Verdict, tuple: Address, hmac: Hmac): seq<IceEvent>
    requires Answerable(p, v, tuple)
  {
    match Reply(p, v, tuple)
    case None => []
    case Some(o) => [Send(MessageBytes(o, [], hmac), tuple)]
  }

  function Events(ice: Ice, s: seq<byte>, tuple: Address, hmac: Hmac): seq<IceEvent>
    requires Parsed(s).Some? && tuple.Valid()
  {
    var v := Judge(ice, s, hmac);
    ParsedShape(s);
    SendReply(Parsed(s).value, v, tuple, hmac) + if v.Accepted? && ice.state != Completed then [Selected(tuple)] else []
  }

  /** CheckAuthentication on a complete request is Authentic, and its bad-request outcome cannot happen. */
  lemma CompleteAuthentication(s: seq<byte>, p: Packet, ufrag: seq<byte>, pwd: seq<byte>, hmac: Hmac)
    requires Parsed(s) == Some(p) && p.klass == Request && Complete(p)
    ensures IntegrityFits(s, p)
    ensures CheckAuth(s, p, ufrag, pwd, hmac) == if Authentic(s, ufrag, pwd, hmac) then OK else Unauthorized
  {
    hide Parsed, Verifies, PrefixOk;
    ParsedFits(s, p);
  }

  lemma OneMessage(p: Packet, v: Verdict, tuple: Address, hmac: Hmac, o: Outgoing)
    requires Answerable(p, v, tuple) && Reply(p, v, tuple) == Some(o)
    ensures o.Valid() && PadFits(o, []) && SendReply(p, v, tuple, hmac) == [Send(MessageBytes(o, [], hmac), tuple)]
  {
    hide MessageBytes;
  }

  lemma IgnoredIsSilent(p: Packet, tuple: Address, hmac: Hmac)
    requires Answerable(p, Ignored, tuple)
    ensures SendReply(p, Ignored, tuple, hmac) == []
  {
  }

  /** A response serialised into the shared buffer, as handed to the listener. */
  method SerializeReply(response: StunPacket, buffer: array<byte>, hmac: Hmac) returns (bytes: seq<byte>)
    requires response.Out().Valid() && response.username == [] && buffer.Length >= 0x10000
    modifies response, buffer
    ensures PadFits(old(response.Out()), []) && bytes == MessageBytes(old(response.Out()), [], hmac)
  {
    hide MessageBytes, NeededSize, Outgoing.Valid;
    ghost var o := response.Out();
    NoPadding(o, buffer[..]);
    response.Serialize(buffer, hmac);
    bytes := buffer[..response.size];
  }

  lemma NoPadding(o: Outgoing, b: seq<byte>)
    requires o.Valid() && o.fields.username == [] && NeededSize(o) <= |b|
    ensures StalePad(o, b) == [] && PadFits(o, [])
  {
    hide NeededSize;
  }

  // ---- the server -------------------------------------------------------------------------------

  class IceServer {
    var usernameFragment: seq<byte>
    var password: seq<byte>
    var oldUsernameFragment: seq<byte>
    var oldPassword: seq<byte>
    var state: IceState

    constructor (usernameFragment: seq<byte>, password: seq<byte>)
      ensures View() == Ice(usernameFragment, password, [], [], New)
    {
      this.usernameFragment, this.password := usernameFragment, password;
      oldUsernameFragment, oldPassword, state := [], [], New;
    }

    ghost function View(): Ice
      reads this
    {
      Ice(usernameFragment, password, oldUsernameFragment, oldPassword, state)
    }

    method SetUsernameFragment(fragment: seq<byte>)
      modifies this
      ensures View() == old(View()).(ufrag := fragment, oldUfrag := old(usernameFragment))
    {
      oldUsernameFragment := usernameFragment;
      usernameFragment := fragment;
    }

    method SetPassword(pwd: seq<byte>)
      modifies this
      ensures View() == old(View()).(pwd := pwd, oldPwd := old(password))
    {
      oldPassword := password;
      password := pwd;
    }

    /** Create, serialise and send an error response. */
    method SendError(packet: StunPacket, code: int, tuple: Address, buffer: array<byte>, hmac: Hmac)
      returns (e: seq<IceEvent>)
      requires packet.klass == Request && Answerable(packet.View(), Rejected(code), tuple) && buffer.Length >= 0x10000
      modifies buffer
      ensures e == SendReply(packet.View(), Rejected(code), tuple, hmac)
    {
      hide MessageBytes;
      var response := packet.CreateErrorResponse(code);
      var bytes := SerializeReply(response, buffer, hmac);
      e := [Send(bytes, tuple)];
    }

    /** Create, authenticate, serialise and send a success response. */
    method SendSuccess(packet: StunPacket, key: seq<byte>, ghost v: Verdict, tuple: Address, buffer: array<byte>,
                       hmac: Hmac) returns (e: seq<IceEvent>)
      requires packet.klass == Request && Answerable(packet.View(), v, tuple) && v.Accepted? && v.key == key
      requires buffer.Length >= 0x10000
      modifies buffer
      ensures e == SendReply(packet.View(), v, tuple, hmac)
    {
      hide MessageBytes, PadFits, SendReply;
      var response := packet.CreateSuccessResponse();
      response.xorMappedAddress := Some(tuple);
      response.Authenticate(key);
      OneMessage(packet.View(), v, tuple, hmac, response.Out());
      var bytes := SerializeReply(response, buffer, hmac);
      e := [Send(bytes, tuple)];
    }

    /** The current credentials, then the saved ones; success under the current ones forgets the saved ones. */
    method CheckCredentials(packet: StunPacket, hmac: Hmac) returns (accepted: bool)
      requires packet.Backed() && packet.size <= 0xFFFC && packet.klass == Request && Complete(packet.View())
      modifies this, packet.data
      ensures packet.data[..] == old(packet.data[..]) && packet.Backed() && state == old(state)
      ensures var v := Judge(old(View()), old(packet.data[..packet.size]), hmac);
              if accepted then v.Accepted? && View().(state := Completed) == After(old(View()), v)
                               && v.key == (if oldPassword == [] then password else oldPassword)
              else v == Rejected(401) && View() == old(View())
    {
      hide Parsed, Authentic, CheckAuth;
      ghost var s := packet.data[..packet.size];
      CompleteAuthentication(s, packet.View(), usernameFragment, password, hmac);
      CompleteAuthentication(s, packet.View(), oldUsernameFragment, oldPassword, hmac);
      var result := packet.CheckAuthentication(usernameFragment, password, hmac);
      assert packet.data[..packet.size] == s;
      match result
      case OK =>
        if oldPassword != [] {
          oldUsernameFragment := [];
          oldPassword := [];
        }
        accepted := true;
      case Unauthorized =>
        accepted := false;
        if oldUsernameFragment != [] && oldPassword != [] {
          var second := packet.CheckAuthentication(oldUsernameFragment, oldPassword, hmac);
          assert packet.data[..packet.size] == s;
          accepted := second == OK;
        }
      case BadRequest =>
        assert false;
    }

    /** Listener callbacks are returned in the order they are made. */
    method ProcessStunPacket(packet: StunPacket, tuple: Address, buffer: array<byte>, hmac: Hmac)
      returns (events: seq<IceEvent>)
      requires packet.Backed() && packet.size <= 0xFFFC && tuple.Valid()
      requires buffer.Length >= 0x10000 && buffer != packet.data
      modifies this, packet.data, buffer
      ensures packet.data[..] == old(packet.data[..]) && packet.Backed()
      ensures View() == After(old(View()), Judge(old(View()), old(packet.data[..packet.size]), hmac))
      ensures events == Events(old(View()), old(packet.data[..packet.size]), tuple, hmac)
    {
      hide Parsed, SendReply, Authentic;
      ghost var s := packet.data[..packet.size];
      ParsedShape(s);
      IgnoredIsSilent(packet.View(), tuple, hmac);
      events := [];
      if packet.msgMethod != BINDING {
        if packet.klass == Request {
          events := SendError(packet, 400, tuple, buffer, hmac);
        }
        return;
      }
      if !packet.hasFingerprint && packet.klass != Indication {
        if packet.klass == Request {
          events := SendError(packet, 400, tuple, buffer, hmac);
        }
        return;
      }
      if packet.klass == Request {
        if packet.messageIntegrity == None || packet.priority == 0 || packet.username == [] {
          events := SendError(packet, 400, tuple, buffer, hmac);
          return;
        }
        var accepted := CheckCredentials(packet, hmac);
        if !accepted {
          events := SendError(packet, 401, tuple, buffer, hmac);
          return;
        }
        var key := if oldPassword == [] then password else oldPassword;
        ghost var v := Judge(old(View()), s, hmac);
        events := SendSuccess(packet, key, v, tuple, buffer, hmac);
        var selected := HandleTuple(tuple);
        events := events + selected;
      }
    }

    method HandleTuple(tuple: Address) returns (events: seq<IceEvent>)
      modifies this`state
      ensures state == Completed
      ensures events == if old(state) != Completed then [Selected(tuple)] else []
    {
      events := [];
      if state != Completed {
        state := Completed;
        events := [Selected(tuple)];
      }
    }
  }
}
