/** The transport object: it feeds datagrams to ICE and DTLS and carries out their callbacks. */
module WebRtcTransports {
  import opened Bytes
  import opened StunGrammar
  import opened StunMessage
  import opened StunPackets
  import opened IceServers
  import opened SrtpKeys
  import opened Connections
  import Random
  import D = DtlsTransports

  function SessionAfterEvent(e: D.Event, srtp: Option<SrtpSession>): Option<SrtpSession> {
    if e.OnConnected? then Some(SrtpSession(e.suite, e.local)) else srtp
  }

  class WebRtcTransport {
    const ice: IceServer
    const dtls: D.DtlsTransport
    const stunBuffer: array<byte>
    const hmac: Hmac
    var remote: Option<Address>
    var srtp: Option<SrtpSession>
    var isReady: bool
    var log: seq<Effect>  // every SendPacket call and one-time assignment, in order

    constructor (crypto: Random.Crypto, fragmentFirst: bool, hmac: Hmac)
      requires crypto.seed < Random.MODULUS
      modifies crypto
      ensures Valid() && log == [] && this.hmac == hmac && fresh(ice) && fresh(dtls) && fresh(stunBuffer)
      ensures var seed := old(crypto.seed);
              View() == Start(Random.DrawnFragment(seed, fragmentFirst), Random.DrawnPassword(seed, fragmentFirst))
      ensures crypto.seed == Random.Iterate(old(crypto.seed), 28)
    {
      hide Random.Iterate, Random.DrawnFragment, Random.DrawnPassword;
      var ufrag, pwd := crypto.GetCredentials(fragmentFirst);
      dtls := new D.DtlsTransport();
      ice := new IceServer(ufrag, pwd);
      stunBuffer := new byte[0x10000];
      this.hmac := hmac;
      remote, srtp, isReady, log := None, None, false, [];
    }

    ghost function View(): Conn
      reads this, ice, dtls
    {
      Conn(ice.View(), dtls.View(), remote, srtp, isReady)
    }

    ghost predicate Valid()
      reads this, ice, dtls
    {
      stunBuffer.Length == 0x10000 && D.Quiescent(dtls.View())
    }

    /** The listener callbacks of DTLS. */
    method OnDtlsEvent(e: D.Event)
      modifies this`srtp, this`isReady, this`log
      ensures log == old(log) + React(e, remote)
      ensures srtp == SessionAfterEvent(e, old(srtp))
      ensures isReady == (e.OnConnected? || old(isReady))
    {
      match e
      case OnConnected(suite, local, _) =>
        srtp := Some(SrtpSession(suite, local));
        isReady := true;
        log := log + [SrtpCreated(SrtpSession(suite, local))];
      case OnSendData(bytes) =>
        log := log + [DtlsOut(bytes, remote)];
      case _ =>
    }

    /** Carry out the DTLS callbacks made since `start`. */
    method Dispatch(start: nat)
      requires start <= |dtls.log|
      modifies this`srtp, this`isReady, this`log
      ensures var fx := Reactions(dtls.log[start..], remote);
              && log == old(log) + fx && srtp == LastSession(old(srtp), fx)
              && isReady == (old(isReady) || Creates(fx))
    {
      hide Reactions, React, LastSession, Creates;
      NothingYet(remote, srtp);
      var i := start;
      assert dtls.log[start..i] == [];
      while i < |dtls.log|
        invariant start <= i <= |dtls.log|
        invariant var fx := Reactions(dtls.log[start..i], remote);
                  && log == old(log) + fx && srtp == LastSession(old(srtp), fx)
                  && isReady == (old(isReady) || Creates(fx))
      {
        assert dtls.log[start..i + 1] == dtls.log[start..i] + [dtls.log[i]];
        OneMoreReaction(dtls.log[start..i], dtls.log[i], remote, old(srtp));
        OnDtlsEvent(dtls.log[i]);
        i := i + 1;
      }
      assert dtls.log[start..i] == dtls.log[start..];
    }

    method OnIceServerSelectedTuple(tuple: Address, o: D.Oracle)
      requires Valid() && o.Valid()
      modifies this, dtls
      ensures var r := WithDtls(old(View()).(remote := Some(tuple)), D.RunSpec(old(dtls.View()), Server, o));
              Valid() && View() == r.0 && log == old(log) + [RemoteSet(tuple)] + r.1
    {
      remote := Some(tuple);
      log := log + [RemoteSet(tuple)];
      var start := |dtls.log|;
      dtls.Run(Server, o);
      assert dtls.log[start..] == D.RunSpec(old(dtls.View()), Server, o).1;
      Dispatch(start);
    }

    method OnDtlsData(o: D.Oracle)
      requires Valid() && o.Valid()
      modifies this, dtls
      ensures Valid() && View() == WithDtls(old(View()), D.DataSpec(old(dtls.View()), o)).0
      ensures log == old(log) + WithDtls(old(View()), D.DataSpec(old(dtls.View()), o)).1
    {
      var start := |dtls.log|;
      dtls.ProcessDtlsData(o);
      assert dtls.log[start..] == D.DataSpec(old(dtls.View()), o).1;
      Dispatch(start);
    }

    /** Callbacks of the ICE server: replies first, then perhaps the selected tuple. */
    method OnStunPacket(packet: StunPacket, from: Address, o: D.Oracle)
      requires Valid() && packet.Backed() && packet.size <= 0xFFFC && packet.data != stunBuffer
      requires from.Valid() && o.Valid()
      modifies this, ice, dtls, stunBuffer, packet.data
      ensures Valid() && packet.data[..] == old(packet.data[..])
      ensures var d := Datagram(old(packet.data[..packet.size]), from, o);
              View() == StunStep(old(View()), d, hmac).0 && log == old(log) + StunStep(old(View()), d, hmac).1
    {
      hide Parsed, Judge, WithDtls, Events, StunReplies, D.RunSpec;
      ghost var s, c := packet.data[..packet.size], View();
      var events := ice.ProcessStunPacket(packet, from, stunBuffer, hmac);
      EventShape(c.ice, s, from, hmac);
      var i := SendReplies(events);
      if i < |events| {
        assert events[..i] == events[..|events| - 1];
        OnIceServerSelectedTuple(events[i].tuple, o);
      } else {
        assert events[..i] == events;
      }
    }

    /** OnIceServerSendStunPacket for every leading reply. */
    method SendReplies(events: seq<IceEvent>) returns (i: nat)
      modifies this`log
      ensures i <= |events| && (forall k :: 0 <= k < i ==> events[k].Send?) && (i < |events| ==> !events[i].Send?)
      ensures log == old(log) + StunReplies(events[..i])
    {
      i := 0;
      while i < |events| && events[i].Send?
        invariant 0 <= i <= |events| && log == old(log) + StunReplies(events[..i])
        invariant forall k :: 0 <= k < i ==> events[k].Send?
      {
        assert events[..i + 1][..i] == events[..i];
        log := log + [StunOut(events[i].bytes, events[i].to)];
        i := i + 1;
      }
    }

    method OnInputDataPacket(buf: array<byte>, len: nat, from: Address, o: D.Oracle)
      requires Valid() && len <= buf.Length && len <= 0xFFFC && buf != stunBuffer && from.Valid() && o.Valid()
      modifies this, ice, dtls, stunBuffer, buf
      ensures Valid() && buf[..] == old(buf[..])
      ensures View() == Step(old(View()), Datagram(old(buf[..len]), from, o), hmac).0
      ensures log == old(log) + Step(old(View()), Datagram(old(buf[..len]), from, o), hmac).1
    {
      hide Parsed, StunStep, WithDtls, D.DataSpec;
      ghost var s := buf[..len];
      if IsStun(buf[..len]) {
        var packet := StunPacket.Parse(buf, len);
        if packet == null {
          return;
        }
        OnStunPacket(packet, from, o);
        return;
      }
      if IsDtls(buf[..len]) {
        OnDtlsData(o);
        return;
      }
    }
  }

  /** Replies come first; the selected tuple, if any, is the last callback. */
  lemma EventShape(ice: Ice, s: seq<byte>, tuple: Address, hmac: Hmac)
    requires Parsed(s).Some? && tuple.Valid()
    ensures var e, v := Events(ice, s, tuple, hmac), Judge(ice, s, hmac);
            if v.Accepted? && ice.state != Completed
            then |e| >= 1 && e[|e| - 1] == Selected(tuple) && (forall i :: 0 <= i < |e| - 1 ==> e[i].Send?)
                 && StunReplies(e) == StunReplies(e[..|e| - 1])
            else forall i :: 0 <= i < |e| ==> e[i].Send?
  {
    hide Parsed, Authentic, Complete, SendReply;
    ParsedShape(s);
    var e := Events(ice, s, tuple, hmac);
    ReplyIsSent(Parsed(s).value, Judge(ice, s, hmac), tuple, hmac);
    if Judge(ice, s, hmac).Accepted? && ice.state != Completed {
      assert StunReplies(e[..|e| - 1]) + [] == StunReplies(e[..|e| - 1]);
    }
  }

  lemma ReplyIsSent(p: Packet, v: Verdict, tuple: Address, hmac: Hmac)
    requires Answerable(p, v, tuple)
    ensures forall i :: 0 <= i < |SendReply(p, v, tuple, hmac)| ==> SendReply(p, v, tuple, hmac)[i].Send?
  {
    hide MessageBytes;
  }

  lemma NothingYet(remote: Option<Address>, srtp: Option<SrtpSession>)
    ensures Reactions([], remote) == [] && LastSession(srtp, []) == srtp && !Creates([])
  {
  }

  lemma OneMoreReaction(es: seq<D.Event>, e: D.Event, remote: Option<Address>, srtp: Option<SrtpSession>)
    ensures var fx, gx := Reactions(es, remote), Reactions(es + [e], remote);
            && gx == fx + React(e, remote)
            && LastSession(srtp, gx) == SessionAfterEvent(e, LastSession(srtp, fx))
            && (Creates(gx) <==> e.OnConnected? || Creates(fx))
  {
    hide React, LastSession, Creates;
    var fx := Reactions(es, remote);
    assert (es + [e])[..|es|] == es;
    AppendReaction(fx, e, remote, srtp);
  }

  lemma AppendReaction(fx: seq<Effect>, e: D.Event, remote: Option<Address>, srtp: Option<SrtpSession>)
    ensures var gx := fx + React(e, remote);
            && LastSession(srtp, gx) == SessionAfterEvent(e, LastSession(srtp, fx))
            && (Creates(gx) <==> e.OnConnected? || Creates(fx))
  {
    if React(e, remote) == [] {
      assert fx + React(e, remote) == fx;
    } else {
      AppendEffect(fx, React(e, remote)[0], srtp);
      assert React(e, remote) == [React(e, remote)[0]];
    }
  }

  lemma AppendEffect(fx: seq<Effect>, f: Effect, srtp: Option<SrtpSession>)
    ensures LastSession(srtp, fx + [f]) == if f.SrtpCreated? then Some(f.session) else LastSession(srtp, fx)
    ensures Creates(fx + [f]) <==> f.SrtpCreated? || Creates(fx)
  {
    var gx := fx + [f];
    assert gx[..|fx|] == fx && gx[|fx|] == f;
    if Creates(fx) {
      var i :| 0 <= i < |fx| && fx[i].SrtpCreated?;
      assert gx[i].SrtpCreated?;
    }
  }
}
