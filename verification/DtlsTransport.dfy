/** The DTLS transport, with OpenSSL as an oracle whose answers are arbitrary. */
module DtlsTransports {
  import opened Bytes
  import opened SrtpKeys

  datatype State = New | Connecting | Connected | Failed | Closed

  predicate Running(s: State) {
    s == Connecting || s == Connected
  }

  datatype SslError = ErrorNone | ErrorSsl | WantRead | WantWrite | WantX509Lookup | Syscall | ZeroReturn
                    | WantConnect | WantAccept | UnknownError

  /**
   * What OpenSSL does during one public call: whether the info callback reports a finished handshake,
   * what is queued for the network, what SSL_read or SSL_write returned, the error and shutdown flags,
   * the retransmission timeout in milliseconds (0 for none), the negotiated suite and the exported block.
   */
  datatype Oracle = Oracle(handshakeDone: bool, outgoing: seq<byte>, received: seq<byte>, written: int, err: SslError,
                           peerClosed: bool, timeoutMs: nat, suite: Option<Suite>, material: seq<byte>) {
    predicate Valid() {
      suite.Some? ==> |material| == 2 * MasterLength(suite.value)
    }

    /** The peer closed, or the connection broke. */
    predicate Broken() {
      peerClosed || err == ErrorSsl || err == Syscall
    }

    predicate TimedOut() {
      timeoutMs >= 30000
    }
  }

  datatype Event = OnConnecting | OnConnected(suite: Suite, local: seq<byte>, remote: seq<byte>) | OnFailed | OnClosed
                 | OnSendData(bytes: seq<byte>) | OnAppData(bytes: seq<byte>)

  // ---- specification: a decision table over quiescent states ------------------------------------

  /** The transport's state as a value; `now` is a finished handshake not yet looked at. */
  datatype Dtls = Dtls(state: State, role: Role, done: bool, now: bool)

  const FRESH := Dtls(New, NoRole, false, false)

  /** Between public calls: a role iff running, done iff connected, nothing pending once stopped. */
  predicate Quiescent(d: Dtls) {
    && d.role != Auto && (d.role != NoRole <==> Running(d.state))
    && (d.done <==> d.state == Connected) && (!Running(d.state) ==> !d.now)
  }

  function Flush(o: Oracle): seq<Event> {
    if o.outgoing != [] then [OnSendData(o.outgoing)] else []
  }

  function Stopped(s: State): Dtls {
    Dtls(s, NoRole, false, false)
  }

  function Keys(o: Oracle, role: Role): Event
    requires o.Valid() && o.suite.Some?
  {
    var b := Split(o.material, o.suite.value);
    OnConnected(o.suite.value, LocalKey(b, role), RemoteKey(b, role))
  }

  function RunSpec(d: Dtls, role: Role, o: Oracle): (Dtls, seq<Event>) {
    if d.role == role then (d, [])
    else if role == Client && o.TimedOut() then (Stopped(Failed), [OnConnecting] + Flush(o) + [OnFailed])
    else (Dtls(Connecting, role, false, o.handshakeDone), [OnConnecting] + if role == Client then Flush(o) else [])
  }

  /** A datagram while connecting: finish, break, time out, or go on. */
  function ConnectingSpec(d: Dtls, o: Oracle): (Dtls, seq<Event>)
    requires o.Valid()
  {
    if d.now || o.handshakeDone then
      if o.suite.None? then (Stopped(Failed), [OnFailed])
      else if o.TimedOut() then (Stopped(Failed), [Keys(o, d.role), OnFailed])
      else (Dtls(Connected, d.role, true, false), [Keys(o, d.role)] + AppData(o))
    else if o.Broken() || o.TimedOut() then (Stopped(Failed), [OnFailed])
    else (d, [])
  }

  /** A datagram while connected: deliver, close, or time out; a renegotiation masks a close. */
  function ConnectedSpec(d: Dtls, o: Oracle): (Dtls, seq<Event>) {
    if !(d.now || o.handshakeDone) && o.Broken() then (Stopped(Closed), [OnClosed])
    else if o.TimedOut() then (Stopped(Failed), [OnFailed])
    else (d.(now := false), AppData(o))
  }

  /** Noting a finished handshake first makes no difference to what a datagram does. */
  lemma PendingIsNoticed(d: Dtls, e: Dtls, o: Oracle)
    requires Running(d.state) && o.Valid() && e == d.(now := d.now || o.handshakeDone)
    ensures d.state == Connecting ==> ConnectingSpec(e, o) == ConnectingSpec(d, o)
    ensures d.state == Connected ==> ConnectedSpec(e, o) == ConnectedSpec(d, o)
  {
    hide Keys;
  }

  function AppData(o: Oracle): seq<Event> {
    if o.received != [] then [OnAppData(o.received)] else []
  }

  function DataSpec(d: Dtls, o: Oracle): (Dtls, seq<Event>)
    requires o.Valid()
  {
    match d.state
    case Connecting => var r := ConnectingSpec(d, o); (r.0, Flush(o) + r.1)
    case Connected => var r := ConnectedSpec(d, o); (r.0, Flush(o) + r.1)
    case _ => (d, [])
  }

  function SendSpec(d: Dtls, len: nat, o: Oracle): (Dtls, seq<Event>) {
    if d.state != Connected || len == 0 then (d, [])
    else if o.written >= 0 then (d.(now := d.now || o.handshakeDone), Flush(o))
    else if d.now || o.handshakeDone then (d.(now := false), Flush(o))
    else if o.Broken() then (Stopped(Closed), [OnClosed])
    else (d, Flush(o))
  }

  datatype Algorithm = NoAlgorithm | Sha1 | Sha224 | Sha256 | Sha384 | Sha512
  datatype Fingerprint = Fingerprint(algorithm: Algorithm, value: string)

  // ---- the transport ----------------------------------------------------------------------------

  class DtlsTransport {
    var state: State
    var localRole: Role
    var handshakeDone: bool
    var handshakeDoneNow: bool
    var remoteFingerprint: Fingerprint
    var log: seq<Event>  // every listener callback, in order

    constructor ()
      ensures View() == FRESH && log == [] && remoteFingerprint == Fingerprint(NoAlgorithm, "")
    {
      remoteFingerprint := Fingerprint(NoAlgorithm, "");
      state, localRole, handshakeDone, handshakeDoneNow, log := New, NoRole, false, false, [];
    }

    ghost function View(): Dtls
      reads this
    {
      Dtls(state, localRole, handshakeDone, handshakeDoneNow)
    }

    method Notify(e: Event)
      modifies this`log
      ensures log == old(log) + [e]
    {
      log := log + [e];
    }

    /** OnSslInfo, for the one event that matters here. */
    method OnSslInfo(finished: bool)
      modifies this`handshakeDoneNow
      ensures handshakeDoneNow == (finished || old(handshakeDoneNow))
    {
      if finished {
        handshakeDoneNow := true;
      }
    }

    method Run(role: Role, o: Oracle)
      requires Quiescent(View()) && (role == Client || role == Server)
      modifies this
      ensures remoteFingerprint == old(remoteFingerprint)
      ensures Quiescent(View()) && View() == RunSpec(old(View()), role, o).0
      ensures log == old(log) + RunSpec(old(View()), role, o).1
    {
      if role == localRole {
        return;
      }
      if localRole == Client || localRole == Server {
        Reset();
      }
      localRole := role;
      state := Connecting;
      Notify(OnConnecting);
      OnSslInfo(o.handshakeDone);
      if role == Client {
        SendPendingOutgoingDtlsData(o);
        var ok := SetTimeout(o);
      }
    }

    /** The deferred branch of the source, handshake done but not connected, cannot be reached. */
    method SetRemoteFingerprint(fingerprint: Fingerprint) returns (r: bool)
      requires Quiescent(View()) && fingerprint.algorithm != NoAlgorithm
      modifies this`remoteFingerprint
      ensures r && remoteFingerprint == fingerprint
    {
      remoteFingerprint := fingerprint;
      assert !(handshakeDone && state != Connected);
      r := true;
    }

    method ProcessDtlsData(o: Oracle)
      requires Quiescent(View()) && o.Valid()
      modifies this
      ensures remoteFingerprint == old(remoteFingerprint)
      ensures Quiescent(View()) && View() == DataSpec(old(View()), o).0
      ensures log == old(log) + DataSpec(old(View()), o).1
    {
      hide Flush, ConnectingSpec, ConnectedSpec;
      if !IsRunning() {
        return;
      }
      ghost var d := View();
      OnSslInfo(o.handshakeDone);
      PendingIsNoticed(d, View(), o);
      SendPendingOutgoingDtlsData(o);
      Deliver(o);
    }

    /** What follows once the queued output has gone: status, timeout, and the decrypted data. */
    method Deliver(o: Oracle)
      requires IsRunning() && Quiescent(View()) && o.Valid() && (o.handshakeDone ==> handshakeDoneNow)
      modifies this
      ensures remoteFingerprint == old(remoteFingerprint) && Quiescent(View())
      ensures var d := old(View());
              var r := if d.state == Connecting then ConnectingSpec(d, o) else ConnectedSpec(d, o);
              View() == r.0 && log == old(log) + r.1
    {
      hide Keys;
      var ok := CheckStatus(o);
      if !ok {
        return;
      }
      ok := SetTimeout(o);
      if !ok {
        return;
      }
      if |o.received| > 0 {
        if !handshakeDone {
          return;
        }
        Notify(OnAppData(o.received));
      }
    }

    method SendApplicationData(len: nat, o: Oracle)
      requires Quiescent(View()) && o.Valid()
      modifies this
      ensures remoteFingerprint == old(remoteFingerprint)
      ensures Quiescent(View()) && View() == SendSpec(old(View()), len, o).0
      ensures log == old(log) + SendSpec(old(View()), len, o).1
    {
      if state != Connected {
        return;
      }
      if len == 0 {
        return;
      }
      OnSslInfo(o.handshakeDone);
      if o.written < 0 {
        var ok := CheckStatus(o);
        if !ok {
          return;
        }
      }
      SendPendingOutgoingDtlsData(o);
    }

    predicate IsRunning()
      reads this
    {
      match state
      case New => false
      case Connecting => true
      case Connected => true
      case Failed => false
      case Closed => false
    }

    method Reset()
      modifies this
      ensures remoteFingerprint == old(remoteFingerprint)
      ensures log == old(log) && View() == if old(IsRunning()) then FRESH else old(View())
    {
      if !IsRunning() {
        return;
      }
      localRole := NoRole;
      state := New;
      handshakeDone := false;
      handshakeDoneNow := false;
    }

    /** False means the transport has been stopped and the listener told. */
    method CheckStatus(o: Oracle) returns (ok: bool)
      requires IsRunning() && o.Valid() && (localRole == Client || localRole == Server)
      requires handshakeDone == (state == Connected)
      modifies this
      ensures remoteFingerprint == old(remoteFingerprint)
      ensures handshakeDone == (state == Connected) && ok == IsRunning()
      ensures ok ==> localRole == old(localRole) && !handshakeDoneNow
      ensures !ok ==> View() == Stopped(state)
      ensures old(handshakeDoneNow) && old(state) == Connected ==> ok && state == Connected && log == old(log)
      ensures old(handshakeDoneNow) && old(state) == Connecting ==>
                if o.suite.Some? then ok && state == Connected && log == old(log) + [Keys(o, localRole)]
                else !ok && state == Failed && log == old(log) + [OnFailed]
      ensures !old(handshakeDoneNow) && o.Broken() && old(state) == Connected ==>
                !ok && state == Closed && log == old(log) + [OnClosed]
      ensures !old(handshakeDoneNow) && o.Broken() && old(state) == Connecting ==>
                !ok && state == Failed && log == old(log) + [OnFailed]
      ensures !old(handshakeDoneNow) && !o.Broken() ==> ok && state == old(state) && log == old(log)
    {
      var wasHandshakeDone := handshakeDone;
      if handshakeDoneNow {
        handshakeDoneNow := false;
        handshakeDone := true;
        if !wasHandshakeDone {
          ok := ProcessHandshake(o);
          return;
        }
        ok := true;
      } else if o.peerClosed || o.err == ErrorSsl || o.err == Syscall {
        if state == Connected {
          Reset();
          state := Closed;
          Notify(OnClosed);
        } else {
          Reset();
          state := Failed;
          Notify(OnFailed);
        }
        ok := false;
      } else {
        ok := true;
      }
    }

    method SendPendingOutgoingDtlsData(o: Oracle)
      modifies this`log
      ensures log == old(log) + Flush(o)
    {
      if o.outgoing == [] {
        return;
      }
      Notify(OnSendData(o.outgoing));
    }

    /** Only ever entered while connecting or connected. */
    method SetTimeout(o: Oracle) returns (ok: bool)
      requires state == Connecting || state == Connected
      modifies this
      ensures remoteFingerprint == old(remoteFingerprint)
      ensures ok == !o.TimedOut()
      ensures ok ==> View() == old(View()) && log == old(log)
      ensures !ok ==> View() == Stopped(Failed) && log == old(log) + [OnFailed]
    {
      if o.timeoutMs == 0 {
        ok := true;
      } else if o.timeoutMs < 30000 {
        ok := true;
      } else {
        Reset();
        state := Failed;
        Notify(OnFailed);
        ok := false;
      }
    }

    method ProcessHandshake(o: Oracle) returns (ok: bool)
      requires handshakeDone && IsRunning() && o.Valid() && (localRole == Client || localRole == Server)
      modifies this
      ensures remoteFingerprint == old(remoteFingerprint)
      ensures ok == o.suite.Some?
      ensures ok ==> View() == old(View()).(state := Connected) && log == old(log) + [Keys(o, localRole)]
      ensures !ok ==> View() == Stopped(Failed) && log == old(log) + [OnFailed]
    {
      match o.suite
      case Some(suite) =>
        var local, remote := ExtractSrtpKeys(suite, o.material, localRole);
        state := Connected;
        Notify(OnConnected(suite, local, remote));
        ok := true;
      case None =>
        Reset();
        state := Failed;
        Notify(OnFailed);
        ok := false;
    }
  }
}
