/** A whole connection: what ICE and DTLS together do, over every sequence of datagrams. */
module Connections {
  import opened Bytes
  import opened StunGrammar
  import opened StunMessage
  import opened IceServers
  import opened SrtpKeys
  import D = DtlsTransports

  /** A received datagram, its sender, and what OpenSSL does while it is processed. */
  datatype Datagram = Datagram(bytes: seq<byte>, from: Address, o: D.Oracle) {
    predicate Valid() {
      from.Valid() && o.Valid()
    }
  }

  datatype SrtpSession = SrtpSession(suite: Suite, key: seq<byte>)

  datatype Conn = Conn(ice: Ice, dtls: D.Dtls, remote: Option<Address>, srtp: Option<SrtpSession>, ready: bool)

  /** What the transport does to the outside and to its own one-time fields, in order. */
  datatype Effect = StunOut(bytes: seq<byte>, to: Address) | RemoteSet(tuple: Address)
                  | DtlsOut(bytes: seq<byte>, dest: Option<Address>) | SrtpCreated(session: SrtpSession)

  predicate IsDtls(s: seq<byte>) {
    |s| >= 13 && 19 < s[0] < 64
  }

  function Start(ufrag: seq<byte>, pwd: seq<byte>): Conn {
    Conn(Ice(ufrag, pwd, [], [], New), D.FRESH, None, None, false)
  }

  // ---- specification of one step ----------------------------------------------------------------

  /** The listener's reaction to one DTLS notification. */
  function React(e: D.Event, remote: Option<Address>): seq<Effect> {
    match e
    case OnConnected(suite, local, _) => [SrtpCreated(SrtpSession(suite, local))]
    case OnSendData(bytes) => [DtlsOut(bytes, remote)]
    case _ => []
  }

  function Reactions(es: seq<D.Event>, remote: Option<Address>): seq<Effect> {
    if es == [] then [] else Reactions(es[..|es| - 1], remote) + React(es[|es| - 1], remote)
  }

  /** The session field after some effects. */
  function LastSession(srtp: Option<SrtpSession>, fx: seq<Effect>): Option<SrtpSession> {
    if fx == [] then srtp
    else if fx[|fx| - 1].SrtpCreated? then Some(fx[|fx| - 1].session)
    else LastSession(srtp, fx[..|fx| - 1])
  }

  predicate Creates(fx: seq<Effect>) {
    exists i :: 0 <= i < |fx| && fx[i].SrtpCreated?
  }

  function WithDtls(c: Conn, r: (D.Dtls, seq<D.Event>)): (Conn, seq<Effect>) {
    var fx := Reactions(r.1, c.remote);
    var srtp := LastSession(c.srtp, fx);
    (c.(dtls := r.0, srtp := srtp, ready := c.ready || Creates(fx)), fx)
  }

  function StunReplies(es: seq<IceEvent>): seq<Effect> {
    if es == [] then []
    else StunReplies(es[..|es| - 1]) + if es[|es| - 1].Send? then [StunOut(es[|es| - 1].bytes, es[|es| - 1].to)] else []
  }

  function StunStep(c: Conn, d: Datagram, hmac: Hmac): (Conn, seq<Effect>)
    requires d.Valid() && Parsed(d.bytes).Some?
  {
    var v := Judge(c.ice, d.bytes, hmac);
    var replies := StunReplies(Events(c.ice, d.bytes, d.from, hmac));
    var c1 := c.(ice := After(c.ice, v));
    if v.Accepted? && c.ice.state != Completed then
      var r := WithDtls(c1.(remote := Some(d.from)), D.RunSpec(c.dtls, Server, d.o));
      (r.0, replies + [RemoteSet(d.from)] + r.1)
    else (c1, replies)
  }

  function Step(c: Conn, d: Datagram, hmac: Hmac): (Conn, seq<Effect>)
    requires d.Valid()
  {
    if IsStun(d.bytes) then if Parsed(d.bytes).None? then (c, []) else StunStep(c, d, hmac)
    else if IsDtls(d.bytes) then WithDtls(c, D.DataSpec(c.dtls, d.o))
    else (c, [])
  }

  // ---- runs -------------------------------------------------------------------------------------

  predicate RunOk(run: seq<Datagram>) {
    forall i :: 0 <= i < |run| ==> run[i].Valid()
  }

  function StateAfter(c: Conn, run: seq<Datagram>, hmac: Hmac): Conn
    requires RunOk(run)
  {
    if run == [] then c else Step(StateAfter(c, run[..|run| - 1], hmac), run[|run| - 1], hmac).0
  }

  function Effects(c: Conn, run: seq<Datagram>, hmac: Hmac): seq<Effect>
    requires RunOk(run)
  {
    if run == [] then []
    else Effects(c, run[..|run| - 1], hmac) + Step(StateAfter(c, run[..|run| - 1], hmac), run[|run| - 1], hmac).1
  }

  // ---- what one step can do ---------------------------------------------------------------------

  lemma {:induction false} ReactionsConcat(a: seq<D.Event>, b: seq<D.Event>, remote: Option<Address>)
    ensures Reactions(a + b, remote) == Reactions(a, remote) + Reactions(b, remote)
  {
    hide React;
    if b == [] {
      assert a + b == a;
    } else {
      var x, y, z := Reactions(a, remote), Reactions(b[..|b| - 1], remote), React(b[|b| - 1], remote);
      ReactionsConcat(a, b[..|b| - 1], remote);
      assert (a + b)[..|a + b| - 1] == a + b[..|b| - 1];
      assert (x + y) + z == x + (y + z);
    }
  }

  lemma ReactionsOne(e: D.Event, remote: Option<Address>)
    ensures Reactions([e], remote) == React(e, remote)
  {
    assert [e][..0] == [];
  }

  /** Whether this datagram finishes the handshake with a usable suite. */
  predicate Connects(d: D.Dtls, o: D.Oracle) {
    d.state == D.Connecting && (d.now || o.handshakeDone) && o.suite.Some?
  }

  function NewSession(d: D.Dtls, o: D.Oracle): SrtpSession
    requires o.Valid() && o.suite.Some?
  {
    SrtpSession(o.suite.value, LocalKey(Split(o.material, o.suite.value), d.role))
  }

  /** A DTLS datagram sends at most what OpenSSL queued, and creates a session exactly when it connects. */
  function DtlsEffects(d: D.Dtls, o: D.Oracle, remote: Option<Address>): seq<Effect>
    requires o.Valid()
  {
    (if D.Running(d.state) && o.outgoing != [] then [DtlsOut(o.outgoing, remote)] else [])
    + if Connects(d, o) then [SrtpCreated(NewSession(d, o))] else []
  }

  lemma DtlsReactions(d: D.Dtls, o: D.Oracle, remote: Option<Address>)
    requires o.Valid()
    ensures Reactions(D.DataSpec(d, o).1, remote) == DtlsEffects(d, o, remote)
  {
    hide NewSession, Reactions, D.ConnectingSpec, D.ConnectedSpec, D.Flush;
    NoReactions(remote);
    FlushReactions(o, remote);
    if d.state == D.Connecting {
      ReactionsConcat(D.Flush(o), D.ConnectingSpec(d, o).1, remote);
      ConnectingReactions(d, o, remote);
    } else if d.state == D.Connected {
      ReactionsConcat(D.Flush(o), D.ConnectedSpec(d, o).1, remote);
      ConnectedReactions(d, o, remote);
    }
  }

  lemma NoReactions(remote: Option<Address>)
    ensures Reactions([], remote) == []
  {
  }

  lemma FlushReactions(o: D.Oracle, remote: Option<Address>)
    ensures Reactions(D.Flush(o), remote) == if o.outgoing != [] then [DtlsOut(o.outgoing, remote)] else []
  {
    ReactionsOne(D.OnSendData(o.outgoing), remote);
  }

  lemma ConnectedReactions(d: D.Dtls, o: D.Oracle, remote: Option<Address>)
    ensures Reactions(D.ConnectedSpec(d, o).1, remote) == []
  {
    ReactionsOne(D.OnClosed, remote);
    ReactionsOne(D.OnFailed, remote);
    ReactionsOne(D.OnAppData(o.received), remote);
  }

  lemma ConnectingReactions(d: D.Dtls, o: D.Oracle, remote: Option<Address>)
    requires o.Valid() && d.state == D.Connecting
    ensures Reactions(D.ConnectingSpec(d, o).1, remote)
         == if Connects(d, o) then [SrtpCreated(NewSession(d, o))] else []
  {
    hide Split, LocalKey, RemoteKey, Reactions;
    NoReactions(remote);
    ReactionsOne(D.OnFailed, remote);
    ReactionsOne(D.OnAppData(o.received), remote);
    if o.suite.Some? {
      var k := D.Keys(o, d.role);
      ReactionsOne(k, remote);
      ReactionsConcat([k], [D.OnFailed], remote);
      ReactionsConcat([k], D.AppData(o), remote);
      assert [k] + [D.OnFailed] == [k, D.OnFailed];
    }
  }

  predicate OnlyStun(fx: seq<Effect>) {
    forall i :: 0 <= i < |fx| ==> fx[i].StunOut?
  }

  lemma {:induction false} RepliesOnlyStun(es: seq<IceEvent>)
    ensures OnlyStun(StunReplies(es))
  {
    if es != [] {
      RepliesOnlyStun(es[..|es| - 1]);
    }
  }

  // ---- safety -----------------------------------------------------------------------------------

  /** Between datagrams. */
  predicate StateSafe(c: Conn) {
    && D.Quiescent(c.dtls) && c.dtls.role != Client
    && (c.dtls.state == D.New <==> c.ice.state != Completed)
    && (c.remote.Some? <==> c.ice.state == Completed)
    && (c.ready <==> c.srtp.Some?)
    && (c.srtp.Some? ==> c.dtls.state != D.New && c.dtls.state != D.Connecting)
  }

  /** The effects so far agree with the state: each one-time effect at most once, DTLS only behind the address. */
  predicate TraceSafe(c: Conn, fx: seq<Effect>) {
    && (c.remote.None? ==> OnlyStun(fx))
    && (c.srtp.None? ==> forall i :: 0 <= i < |fx| ==> !fx[i].SrtpCreated?)
    && (forall i :: 0 <= i < |fx| && fx[i].RemoteSet? ==> c.remote == Some(fx[i].tuple))
    && (forall i :: 0 <= i < |fx| && fx[i].DtlsOut? ==> fx[i].dest == c.remote && Opened(fx[..i]))
    && (forall i :: 0 <= i < |fx| && fx[i].SrtpCreated? ==> c.srtp == Some(fx[i].session) && Opened(fx[..i]))
    && (forall i, j :: 0 <= i < j < |fx| && fx[i].RemoteSet? ==> !fx[j].RemoteSet?)
    && (forall i, j :: 0 <= i < j < |fx| && fx[i].SrtpCreated? ==> !fx[j].SrtpCreated?)
    && (c.remote.Some? ==> Opened(fx))
    && (c.srtp.Some? ==> Creates(fx))
  }

  /** The remote address has been set. */
  predicate Opened(fx: seq<Effect>) {
    exists i :: 0 <= i < |fx| && fx[i].RemoteSet?
  }

  /** When one more effect keeps the trace safe, and in which state. */
  predicate Admits(c: Conn, e: Effect, c': Conn) {
    match e
    case StunOut(_, _) => c'.remote == c.remote && c'.srtp == c.srtp
    case RemoteSet(t) => c.remote.None? && c'.remote == Some(t) && c'.srtp == c.srtp
    case DtlsOut(_, dest) => c.remote.Some? && dest == c.remote && c'.remote == c.remote && c'.srtp == c.srtp
    case SrtpCreated(x) => c.remote.Some? && c.srtp.None? && c'.remote == c.remote && c'.srtp == Some(x)
  }

  lemma TraceGrows(c: Conn, fx: seq<Effect>, e: Effect, c': Conn)
    requires TraceSafe(c, fx) && Admits(c, e, c') && (c.srtp.Some? ==> c.remote.Some?)
    ensures TraceSafe(c', fx + [e])
  {
    var gx := fx + [e];
    OnceMore(fx, e);
    hide Opened, Creates;
    forall i | 0 <= i < |gx|
      ensures gx[i] == if i < |fx| then fx[i] else e
      ensures gx[..i] == fx[..i]
    {
    }
    assert fx[..|fx|] == fx;
  }

  lemma OnceMore(fx: seq<Effect>, e: Effect)
    ensures Opened(fx + [e]) <==> Opened(fx) || e.RemoteSet?
    ensures Creates(fx + [e]) <==> Creates(fx) || e.SrtpCreated?
  {
    var gx := fx + [e];
    assert gx[|fx|] == e;
    if Opened(fx) {
      var i :| 0 <= i < |fx| && fx[i].RemoteSet?;
      assert gx[i].RemoteSet?;
    }
    if Creates(fx) {
      var i :| 0 <= i < |fx| && fx[i].SrtpCreated?;
      assert gx[i].SrtpCreated?;
    }
  }

  lemma {:induction false} TraceGrowsByStun(c: Conn, fx: seq<Effect>, gx: seq<Effect>, c': Conn)
    requires TraceSafe(c, fx) && OnlyStun(gx) && c'.remote == c.remote && c'.srtp == c.srtp
    requires c.srtp.Some? ==> c.remote.Some?
    ensures TraceSafe(c', fx + gx)
  {
    hide TraceSafe;
    if gx == [] {
      assert fx + gx == fx;
      SameFields(c, c', fx);
    } else {
      TraceGrowsByStun(c, fx, gx[..|gx| - 1], c');
      TraceGrows(c', fx + gx[..|gx| - 1], gx[|gx| - 1], c');
      assert fx + gx == (fx + gx[..|gx| - 1]) + [gx[|gx| - 1]];
    }
  }

  lemma SameFields(c: Conn, c': Conn, fx: seq<Effect>)
    requires TraceSafe(c, fx) && c'.remote == c.remote && c'.srtp == c.srtp
    ensures TraceSafe(c', fx)
  {
  }

  /** One datagram keeps everything. */
  lemma StepSafe(c: Conn, fx: seq<Effect>, d: Datagram, hmac: Hmac)
    requires StateSafe(c) && TraceSafe(c, fx) && d.Valid()
    ensures var r := Step(c, d, hmac); StateSafe(r.0) && TraceSafe(r.0, fx + r.1)
  {
    hide Parsed, TraceSafe, IsStun, IsDtls;
    if IsStun(d.bytes) && Parsed(d.bytes).Some? {
      StunStepSafe(c, fx, d, hmac);
    } else if !IsStun(d.bytes) && IsDtls(d.bytes) {
      DtlsStepSafe(c, fx, d.o);
    } else {
      assert fx + [] == fx;
    }
  }

  lemma StunStepSafe(c: Conn, fx: seq<Effect>, d: Datagram, hmac: Hmac)
    requires StateSafe(c) && TraceSafe(c, fx) && d.Valid() && Parsed(d.bytes).Some?
    ensures var r := StunStep(c, d, hmac); StateSafe(r.0) && TraceSafe(r.0, fx + r.1)
  {
    hide Parsed, TraceSafe, Judge, Events;
    var v, replies := Judge(c.ice, d.bytes, hmac), StunReplies(Events(c.ice, d.bytes, d.from, hmac));
    var c1 := c.(ice := IceServers.After(c.ice, v));
    RepliesOnlyStun(Events(c.ice, d.bytes, d.from, hmac));
    TraceGrowsByStun(c, fx, replies, c1);
    if v.Accepted? && c.ice.state != Completed {
      var c2 := c1.(remote := Some(d.from));
      StartsDtls(c2, d.o);
      var r := WithDtls(c2, D.RunSpec(c.dtls, Server, d.o));
      TraceGrows(c1, fx + replies, RemoteSet(d.from), r.0);
      assert fx + (replies + [RemoteSet(d.from)] + r.1) == (fx + replies) + [RemoteSet(d.from)];
    }
  }

  /** Selecting the tuple starts DTLS as a server and does nothing else yet. */
  lemma StartsDtls(c: Conn, o: D.Oracle)
    requires c.dtls == D.FRESH
    ensures WithDtls(c, D.RunSpec(c.dtls, Server, o))
         == (c.(dtls := D.Dtls(D.Connecting, Server, false, o.handshakeDone)), [])
  {
    assert [D.OnConnecting] + [] == [D.OnConnecting];
    ReactionsOne(D.OnConnecting, c.remote);
  }

  lemma DtlsStepSafe(c: Conn, fx: seq<Effect>, o: D.Oracle)
    requires StateSafe(c) && TraceSafe(c, fx) && o.Valid()
    ensures var r := WithDtls(c, D.DataSpec(c.dtls, o)); StateSafe(r.0) && TraceSafe(r.0, fx + r.1)
  {
    hide TraceSafe, NewSession, WithDtls, D.DataSpec;
    var r := WithDtls(c, D.DataSpec(c.dtls, o));
    DtlsStateSafe(c, o);
    var first := if D.Running(c.dtls.state) && o.outgoing != [] then [DtlsOut(o.outgoing, c.remote)] else [];
    var second := if Connects(c.dtls, o) then [SrtpCreated(NewSession(c.dtls, o))] else [];
    if first != [] {
      TraceGrows(c, fx, first[0], c);
    } else {
      assert fx + first == fx;
    }
    if second != [] {
      TraceGrows(c, fx + first, second[0], r.0);
    } else {
      assert (fx + first) + second == fx + first;
      SameFields(c, r.0, fx + first);
    }
    assert fx + (first + second) == (fx + first) + second;
  }

  lemma DtlsStateSafe(c: Conn, o: D.Oracle)
    requires StateSafe(c) && o.Valid()
    ensures var r := WithDtls(c, D.DataSpec(c.dtls, o));
            && StateSafe(r.0) && r.0.remote == c.remote && r.1 == DtlsEffects(c.dtls, o, c.remote)
            && r.0.srtp == if Connects(c.dtls, o) then Some(NewSession(c.dtls, o)) else c.srtp
  {
    hide NewSession, Reactions, D.DataSpec, DtlsEffects, LastSession;
    DtlsReactions(c.dtls, o, c.remote);
    SessionAfter(c, o);
    DataTransition(c.dtls, o);
  }

  /** The session field follows from whether the datagram connects. */
  lemma SessionAfter(c: Conn, o: D.Oracle)
    requires o.Valid()
    ensures var fx := DtlsEffects(c.dtls, o, c.remote);
            && LastSession(c.srtp, fx) == (if Connects(c.dtls, o) then Some(NewSession(c.dtls, o)) else c.srtp)
            && (Creates(fx) <==> Connects(c.dtls, o))
  {
    hide NewSession;
    var fx := DtlsEffects(c.dtls, o, c.remote);
    if Connects(c.dtls, o) {
      assert fx[|fx| - 1].SrtpCreated?;
    } else if fx != [] {
      assert fx[..0] == [] && fx[0].DtlsOut?;
    }
  }

  lemma DataTransition(d: D.Dtls, o: D.Oracle)
    requires D.Quiescent(d) && d.role != Client && o.Valid()
    ensures var r := D.DataSpec(d, o).0;
            && D.Quiescent(r) && r.role != Client && (r.state == D.New <==> d.state == D.New)
            && (r.state == D.Connecting ==> d.state == D.Connecting && !Connects(d, o))
            && (Connects(d, o) ==> d.state == D.Connecting)
  {
    hide D.Keys;
  }

  /** Whole-connection safety: every run from a fresh transport keeps all of it. */
  lemma {:induction false} EveryRunSafe(ufrag: seq<byte>, pwd: seq<byte>, run: seq<Datagram>, hmac: Hmac)
    requires RunOk(run)
    ensures var c := Start(ufrag, pwd);
            StateSafe(StateAfter(c, run, hmac)) && TraceSafe(StateAfter(c, run, hmac), Effects(c, run, hmac))
  {
    hide TraceSafe, StateSafe, Step;
    if run == [] {
      StartSafe(ufrag, pwd);
    } else {
      var c, init := Start(ufrag, pwd), run[..|run| - 1];
      EveryRunSafe(ufrag, pwd, init, hmac);
      StepSafe(StateAfter(c, init, hmac), Effects(c, init, hmac), run[|run| - 1], hmac);
    }
  }

  lemma StartSafe(ufrag: seq<byte>, pwd: seq<byte>)
    ensures StateSafe(Start(ufrag, pwd)) && TraceSafe(Start(ufrag, pwd), [])
  {
  }

  // ---- authentication ---------------------------------------------------------------------------

  /** A complete Binding request that is authentic under the connection's own credentials. */
  predicate Opens(d: Datagram, ufrag: seq<byte>, pwd: seq<byte>, hmac: Hmac) {
    && Parsed(d.bytes).Some? && Parsed(d.bytes).value.klass == Request && Complete(Parsed(d.bytes).value)
    && Authentic(d.bytes, ufrag, pwd, hmac)
  }

  /** A transport never rotates its credentials, so none are ever saved. */
  predicate OwnCredentials(c: Conn, ufrag: seq<byte>, pwd: seq<byte>) {
    c.ice.ufrag == ufrag && c.ice.pwd == pwd && c.ice.oldUfrag == [] && c.ice.oldPwd == []
  }

  lemma StepOpens(c: Conn, d: Datagram, ufrag: seq<byte>, pwd: seq<byte>, hmac: Hmac)
    requires StateSafe(c) && OwnCredentials(c, ufrag, pwd) && d.Valid()
    ensures var r := Step(c, d, hmac).0;
            && OwnCredentials(r, ufrag, pwd)
            && r.remote == if c.remote.None? && Opens(d, ufrag, pwd, hmac) then Some(d.from) else c.remote
  {
    hide Parsed, Events, Authentic, StunReplies, Reactions, LastSession, D.DataSpec, D.RunSpec;
    if !IsStun(d.bytes) {
      NotStun(d.bytes);
    }
  }

  /**
   * The remote address, over every run: it is the sender of the first datagram that is a complete Binding request
   * authentic under exactly the connection's credentials, and it stays unset as long as there is none.
   */
  lemma {:induction false} OpenedByAuthenticRequest(ufrag: seq<byte>, pwd: seq<byte>, run: seq<Datagram>, hmac: Hmac)
    returns (first: nat)
    requires RunOk(run)
    ensures first <= |run| && forall i :: 0 <= i < first ==> !Opens(run[i], ufrag, pwd, hmac)
    ensures first < |run| ==> Opens(run[first], ufrag, pwd, hmac)
    ensures StateAfter(Start(ufrag, pwd), run, hmac).remote == if first < |run| then Some(run[first].from) else None
    ensures OwnCredentials(StateAfter(Start(ufrag, pwd), run, hmac), ufrag, pwd)
  {
    hide StateSafe, Step, Opens;
    if run == [] {
      first := 0;
    } else {
      var init, last := run[..|run| - 1], run[|run| - 1];
      first := OpenedByAuthenticRequest(ufrag, pwd, init, hmac);
      EveryRunSafe(ufrag, pwd, init, hmac);
      StepOpens(StateAfter(Start(ufrag, pwd), init, hmac), last, ufrag, pwd, hmac);
      if first == |init| && !Opens(last, ufrag, pwd, hmac) {
        first := |run|;
      }
    }
  }

  /** Until such a request has come, DTLS has not begun and nothing but STUN replies has gone out. */
  lemma SilentUntilAuthenticated(ufrag: seq<byte>, pwd: seq<byte>, run: seq<Datagram>, hmac: Hmac)
    requires RunOk(run) && forall i :: 0 <= i < |run| ==> !Opens(run[i], ufrag, pwd, hmac)
    ensures var c := Start(ufrag, pwd);
            && OnlyStun(Effects(c, run, hmac)) && StateAfter(c, run, hmac).dtls.state == D.New
            && StateAfter(c, run, hmac).srtp == None
  {
    hide Opens, OnlyStun, Effects, StateAfter;
    var first := OpenedByAuthenticRequest(ufrag, pwd, run, hmac);
    EveryRunSafe(ufrag, pwd, run, hmac);
  }

  /** Failed and Closed are final. */
  lemma StoppedIsFinal(c: Conn, d: Datagram, hmac: Hmac)
    requires StateSafe(c) && d.Valid() && (c.dtls.state == D.Failed || c.dtls.state == D.Closed)
    ensures Step(c, d, hmac).0.dtls == c.dtls && Step(c, d, hmac).0.srtp == c.srtp
  {
    hide Parsed, Events, Judge, StunReplies;
  }

  lemma {:induction false} StoppedForever(ufrag: seq<byte>, pwd: seq<byte>, run: seq<Datagram>, n: nat, hmac: Hmac)
    requires RunOk(run) && n <= |run|
    requires var s := StateAfter(Start(ufrag, pwd), run[..n], hmac).dtls.state; s == D.Failed || s == D.Closed
    ensures StateAfter(Start(ufrag, pwd), run, hmac).dtls == StateAfter(Start(ufrag, pwd), run[..n], hmac).dtls
  {
    hide StateSafe, Step;
    if n == |run| {
      assert run[..n] == run;
    } else {
      var init := run[..|run| - 1];
      assert init[..n] == run[..n];
      StoppedForever(ufrag, pwd, init, n, hmac);
      EveryRunSafe(ufrag, pwd, init, hmac);
      StoppedIsFinal(StateAfter(Start(ufrag, pwd), init, hmac), run[|run| - 1], hmac);
    }
  }
}
