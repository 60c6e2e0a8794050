/** When a DTLS connection starts, ends and delivers, in terms of what OpenSSL reported. */
module DtlsOutcomes {
  import opened Bytes
  import opened SrtpKeys
  import opened DtlsTransports
  import opened DtlsRuns

  /** A datagram while connected: a close needs a shutdown or a fatal error and no renegotiation just finished. */
  lemma DataWhileConnected(d: Dtls, o: Oracle)
    requires Quiescent(d) && d.state == Connected && o.Valid()
    ensures var r := DataSpec(d, o);
            && (r.0.state == Closed
                <==> !d.now && !o.handshakeDone && (o.peerClosed || o.err == ErrorSsl || o.err == Syscall))
            && (r.0.state == Failed <==> r.0.state != Closed && o.timeoutMs >= 30000)
            && (r.0.state == Connected <==> r.0.state != Closed && r.0.state != Failed)
            && r.0 == (if r.0.state == Connected then Dtls(Connected, d.role, true, false)
                       else Dtls(r.0.state, NoRole, false, false))
            && r.1 == (if o.outgoing != [] then [OnSendData(o.outgoing)] else [])
                      + (if r.0.state == Closed then [OnClosed] else if r.0.state == Failed then [OnFailed]
                         else if o.received != [] then [OnAppData(o.received)] else [])
  {
  }

  /** A datagram while connecting: it connects, fails or changes nothing. */
  lemma DataWhileConnecting(d: Dtls, o: Oracle)
    requires Quiescent(d) && d.state == Connecting && o.Valid()
    ensures var r, finished := DataSpec(d, o), d.now || o.handshakeDone;
            && (r.0.state == Connected <==> finished && o.suite.Some? && o.timeoutMs < 30000)
            && (r.0.state == Failed
                <==> o.timeoutMs >= 30000
                     || if finished then o.suite.None? else o.peerClosed || o.err == ErrorSsl || o.err == Syscall)
            && (r.0.state == Connecting <==> r.0.state != Connected && r.0.state != Failed)
            && r.0 == (match r.0.state
                       case Connected => Dtls(Connected, d.role, true, false)
                       case Failed => Dtls(Failed, NoRole, false, false)
                       case _ => d)
            && r.1 == (if o.outgoing != [] then [OnSendData(o.outgoing)] else [])
                      + (if finished && o.suite.Some? then [Keys(o, d.role)] else [])
                      + (if r.0.state == Failed then [OnFailed]
                         else if r.0.state == Connected && o.received != [] then [OnAppData(o.received)] else [])
  {
    hide Keys;
    var r := DataSpec(d, o);
    var f, c := Flush(o), ConnectingSpec(d, o).1;
    if (d.now || o.handshakeDone) && o.suite.Some? {
      var k := Keys(o, d.role);
      assert [k, OnFailed] == [k] + [OnFailed];
      if r.0.state == Failed {
        assert f + ([k] + [OnFailed]) == f + [k] + [OnFailed];
      } else {
        assert f + ([k] + AppData(o)) == f + [k] + AppData(o);
      }
    } else {
      assert f + [] == f;
      assert f + [] + c == f + c;
    }
  }

  lemma DataWhileStopped(d: Dtls, o: Oracle)
    requires o.Valid() && (d.state == New || d.state == Failed || d.state == Closed)
    ensures DataSpec(d, o) == (d, [])
  {
  }

  /** The keys announced: each side's local key is what the other side's transport calls remote. */
  lemma AnnouncedKeysAgree(o: Oracle)
    requires o.Valid() && o.suite.Some?
    ensures Keys(o, Server).OnConnected? && Keys(o, Server).suite == Keys(o, Client).suite == o.suite.value
    ensures Keys(o, Server).local == Keys(o, Client).remote && Keys(o, Server).remote == Keys(o, Client).local
    ensures Keys(o, Server).local == LocalKey(Split(o.material, o.suite.value), Server)
  {
  }

  /** Starting: silent if the role is already taken, otherwise a fresh round, which a client may lose at once. */
  lemma RunOutcome(d: Dtls, role: Role, o: Oracle)
    requires Quiescent(d) && (role == Client || role == Server)
    ensures var r := RunSpec(d, role, o);
            && (d.role == role ==> r == (d, []))
            && (d.role != role ==>
                  && (r.0.state == Failed <==> role == Client && o.timeoutMs >= 30000)
                  && (r.0.state != Failed ==> r.0 == Dtls(Connecting, role, false, o.handshakeDone))
                  && (r.0.state == Failed ==> r.0 == Dtls(Failed, NoRole, false, false))
                  && r.1 == [OnConnecting]
                            + (if role == Client && o.outgoing != [] then [OnSendData(o.outgoing)] else [])
                            + (if r.0.state == Failed then [OnFailed] else []))
  {
    var f := [OnConnecting] + if role == Client then Flush(o) else [];
    assert f + [] == f;
  }

  /** Sending: only a connected transport does anything, and only a failed write can end the connection. */
  lemma SendOutcome(d: Dtls, len: nat, o: Oracle)
    requires Quiescent(d)
    ensures var r := SendSpec(d, len, o);
            && (d.state != Connected || len == 0 ==> r == (d, []))
            && (d.state == Connected && len > 0 ==>
                  && (r.0.state == Closed
                      <==> o.written < 0 && !d.now && !o.handshakeDone
                           && (o.peerClosed || o.err == ErrorSsl || o.err == Syscall))
                  && (r.0.state != Closed ==>
                        && r.0 == Dtls(Connected, d.role, true, o.written >= 0 && (d.now || o.handshakeDone))
                        && r.1 == if o.outgoing != [] then [OnSendData(o.outgoing)] else [])
                  && (r.0.state == Closed ==> r == (Dtls(Closed, NoRole, false, false), [OnClosed])))
  {
  }

  // ---- delivery over every run ------------------------------------------------------------------

  /** The application data the listener is handed. */
  function Delivered(t: seq<Event>): seq<seq<byte>> {
    if t == [] then []
    else Delivered(t[..|t| - 1]) + if t[|t| - 1].OnAppData? then [t[|t| - 1].bytes] else []
  }

  /** What OpenSSL decrypted in those datagrams that left the transport connected. */
  function Decrypted(calls: seq<Call>): seq<seq<byte>>
    requires CallsOk(calls)
  {
    if calls == [] then []
    else
      var last := calls[|calls| - 1];
      Decrypted(calls[..|calls| - 1])
      + if last.Data? && StateAfter(calls).state == Connected && last.o.received != [] then [last.o.received] else []
  }

  lemma {:induction false} DeliveredConcat(a: seq<Event>, b: seq<Event>)
    ensures Delivered(a + b) == Delivered(a) + Delivered(b)
  {
    if b == [] {
      assert a + b == a;
    } else {
      DeliveredConcat(a, b[..|b| - 1]);
      assert (a + b)[..|a + b| - 1] == a + b[..|b| - 1];
    }
  }

  lemma DeliveredOne(e: Event)
    ensures Delivered([e]) == if e.OnAppData? then [e.bytes] else []
  {
    assert [e][..0] == [];
  }

  lemma StepDelivers(d: Dtls, c: Call)
    requires Quiescent(d) && CallOk(c)
    ensures Delivered(Step(d, c).1)
         == if c.Data? && Step(d, c).0.state == Connected && c.o.received != [] then [c.o.received] else []
  {
    hide Delivered, Quiescent;
    NothingDelivered();
    match c
    case Run(role, o) => RunDelivers(d, role, o);
    case SetFingerprint =>
    case Data(o) => DataDelivers(d, o);
    case SendApp(len, o) =>
      hide SendSpec;
      SendOutcome(d, len, o);
      SilentEvents(o);
  }

  /** The single events that carry no application data. */
  lemma SilentEvents(o: Oracle)
    ensures Delivered([OnSendData(o.outgoing)]) == Delivered([OnConnecting]) == Delivered([OnFailed]) == []
    ensures Delivered([OnClosed]) == [] && Delivered([OnAppData(o.received)]) == [o.received]
  {
    hide Delivered;
    DeliveredOne(OnSendData(o.outgoing));
    DeliveredOne(OnConnecting);
    DeliveredOne(OnFailed);
    DeliveredOne(OnClosed);
    DeliveredOne(OnAppData(o.received));
  }

  lemma RunDelivers(d: Dtls, role: Role, o: Oracle)
    requires Quiescent(d) && (role == Client || role == Server)
    ensures Delivered(RunSpec(d, role, o).1) == []
  {
    hide Delivered, RunSpec, Quiescent;
    RunOutcome(d, role, o);
    NothingDelivered();
    SilentEvents(o);
    var f := if role == Client && o.outgoing != [] then [OnSendData(o.outgoing)] else [];
    var e := if RunSpec(d, role, o).0.state == Failed then [OnFailed] else [];
    DeliveredConcat([OnConnecting] + f, e);
    DeliveredConcat([OnConnecting], f);
  }

  lemma DataDelivers(d: Dtls, o: Oracle)
    requires Quiescent(d) && o.Valid()
    ensures var r := DataSpec(d, o);
            Delivered(r.1) == if r.0.state == Connected && o.received != [] then [o.received] else []
  {
    hide Delivered, DataSpec, Keys, Quiescent;
    NothingDelivered();
    SilentEvents(o);
    var r, f := DataSpec(d, o), if o.outgoing != [] then [OnSendData(o.outgoing)] else [];
    if d.state == Connected {
      DataWhileConnected(d, o);
      DeliveredConcat(f, if r.0.state == Closed then [OnClosed] else if r.0.state == Failed then [OnFailed]
                         else if o.received != [] then [OnAppData(o.received)] else []);
    } else if d.state == Connecting {
      DataWhileConnecting(d, o);
      var k := if (d.now || o.handshakeDone) && o.suite.Some? then [Keys(o, d.role)] else [];
      var e := if r.0.state == Failed then [OnFailed]
               else if r.0.state == Connected && o.received != [] then [OnAppData(o.received)] else [];
      DeliveredConcat(f + k, e);
      DeliveredConcat(f, k);
      if o.suite.Some? {
        DeliveredOne(Keys(o, d.role));
        KeysCarryNoData(o, d.role);
      }
    } else {
      DataWhileStopped(d, o);
    }
  }

  lemma KeysCarryNoData(o: Oracle, role: Role)
    requires o.Valid() && o.suite.Some?
    ensures Keys(o, role).OnConnected?
  {
    hide Split;
  }

  lemma NothingDelivered()
    ensures Delivered([]) == []
  {
  }

  /** Every decrypted record of a connected transport is delivered, once and in order, and nothing else is. */
  lemma {:induction false} DeliveredExactly(calls: seq<Call>)
    requires CallsOk(calls)
    ensures Delivered(Trace(calls)) == Decrypted(calls)
  {
    hide Step, Delivered;
    if calls == [] {
      NothingDelivered();
    } else {
      var init, last := calls[..|calls| - 1], calls[|calls| - 1];
      DeliveredExactly(init);
      EveryRunReplays(init);
      StepDelivers(StateAfter(init), last);
      DeliveredConcat(Trace(init), Step(StateAfter(init), last).1);
    }
  }
}
