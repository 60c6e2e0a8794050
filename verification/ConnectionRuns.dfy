/** What a connection does over every run: which replies go out, when DTLS runs, and when there is a session. */
module ConnectionRuns {
  import opened Bytes
  import opened StunGrammar
  import opened StunMessage
  import opened IceServers
  import IceProperties
  import opened SrtpKeys
  import opened Connections
  import opened DtlsOutcomes
  import D = DtlsTransports

  // ---- one datagram -----------------------------------------------------------------------------

  /** At least a record header, and a content type from 20 to 63. */
  predicate DtlsShaped(s: seq<byte>) {
    |s| >= 13 && 20 <= s[0] <= 63
  }

  lemma DtlsIsNotStun(s: seq<byte>)
    requires DtlsShaped(s)
    ensures IsDtls(s) && !IsStun(s)
  {
  }

  lemma NotDtls(s: seq<byte>)
    requires !DtlsShaped(s)
    ensures !IsDtls(s)
  {
  }

  /** The session of a server that finishes its handshake with this suite and this exported block. */
  function ServerSession(o: D.Oracle): SrtpSession
    requires o.Valid() && o.suite.Some?
  {
    SrtpSession(o.suite.value, LocalKey(Split(o.material, o.suite.value), Server))
  }

  predicate Finishing(d: D.Dtls, o: D.Oracle) {
    d.state == D.Connecting && (d.now || o.handshakeDone) && o.suite.Some?
  }

  /** A DTLS datagram is processed: what OpenSSL queued goes out, and a finished handshake creates the session. */
  lemma DtlsDatagram(c: Conn, d: Datagram, hmac: Hmac)
    requires StateSafe(c) && d.Valid() && |d.bytes| >= 13 && 20 <= d.bytes[0] <= 63
    ensures var r := Step(c, d, hmac);
            && r.1 == (if (c.dtls.state == D.Connecting || c.dtls.state == D.Connected) && d.o.outgoing != []
                       then [DtlsOut(d.o.outgoing, c.remote)] else [])
                      + (if Finishing(c.dtls, d.o) then [SrtpCreated(ServerSession(d.o))] else [])
            && r.0.srtp == (if Finishing(c.dtls, d.o) then Some(ServerSession(d.o)) else c.srtp)
            && r.0.ready == (c.ready || Finishing(c.dtls, d.o))
            && r.0.dtls == D.DataSpec(c.dtls, d.o).0 && r.0.ice == c.ice && r.0.remote == c.remote
  {
    DtlsIsNotStun(d.bytes);
    SameSession(c, d.o);
    DtlsStateSafe(c, d.o);
    SessionAfter(c, d.o);
    DtlsReactions(c.dtls, d.o, c.remote);
    hide IsStun, IsDtls, NewSession, ServerSession, D.DataSpec, Reactions, LastSession, StateSafe, Creates;
  }

  lemma SameSession(c: Conn, o: D.Oracle)
    requires StateSafe(c) && o.Valid()
    ensures Connects(c.dtls, o) == Finishing(c.dtls, o)
    ensures Finishing(c.dtls, o) ==> NewSession(c.dtls, o) == ServerSession(o)
  {
    hide Split, LocalKey;
  }

  /** A STUN message is answered if it is a request; an opening one also sets the address and starts DTLS. */
  lemma StunDatagram(c: Conn, d: Datagram, ufrag: seq<byte>, pwd: seq<byte>, hmac: Hmac)
    requires StateSafe(c) && OwnCredentials(c, ufrag, pwd) && d.Valid() && Parsed(d.bytes).Some?
    ensures var r := Step(c, d, hmac);
            && r.1 == Answers(c, d, hmac)
                      + (if c.remote.None? && Opens(d, ufrag, pwd, hmac) then [RemoteSet(d.from)] else [])
            && r.0.dtls == (if c.remote.None? && Opens(d, ufrag, pwd, hmac)
                            then D.Dtls(D.Connecting, Server, false, d.o.handshakeDone) else c.dtls)
            && r.0.srtp == c.srtp && r.0.ready == c.ready
  {
    hide Parsed, Opens, Judge, Answers, Events, StunReplies, WithDtls, StateSafe, OwnCredentials, IsDtls, D.DataSpec;
    IsStunOf(d.bytes);
    AnswersAre(c, d, hmac);
    OpeningVerdict(c, d, ufrag, pwd, hmac);
    hide IsStun;
    var a, v := Answers(c, d, hmac), Judge(c.ice, d.bytes, hmac);
    if c.remote.None? && Opens(d, ufrag, pwd, hmac) {
      StartsDtls(c.(ice := After(c.ice, v), remote := Some(d.from)), d.o);
      assert a + [RemoteSet(d.from)] + [] == a + [RemoteSet(d.from)];
    } else {
      assert a + [] == a;
    }
  }

  lemma OpeningVerdict(c: Conn, d: Datagram, ufrag: seq<byte>, pwd: seq<byte>, hmac: Hmac)
    requires StateSafe(c) && OwnCredentials(c, ufrag, pwd) && Parsed(d.bytes).Some?
    ensures Judge(c.ice, d.bytes, hmac).Accepted? && c.ice.state != Completed
       <==> c.remote.None? && Opens(d, ufrag, pwd, hmac)
    ensures c.remote.None? ==> c.dtls == D.FRESH
  {
    hide Parsed, Authentic, Complete;
  }

  lemma IsStunOf(s: seq<byte>)
    requires Parsed(s).Some?
    ensures IsStun(s)
  {
  }

  /** The reply to a datagram: one message to its sender if it is a request, none otherwise. */
  function Answers(c: Conn, d: Datagram, hmac: Hmac): seq<Effect>
    requires d.Valid() && Parsed(d.bytes).Some?
  {
    if Parsed(d.bytes).value.klass != Request then []
    else
      IceProperties.OneReplyPerRequest(c.ice, d.bytes, d.from, hmac);
      [StunOut(IceProperties.ReplyBytes(Parsed(d.bytes).value, Judge(c.ice, d.bytes, hmac), d.from, hmac), d.from)]
  }

  lemma AnswersAre(c: Conn, d: Datagram, hmac: Hmac)
    requires d.Valid() && Parsed(d.bytes).Some?
    ensures StunReplies(Events(c.ice, d.bytes, d.from, hmac)) == Answers(c, d, hmac)
  {
    IceProperties.OneReplyPerRequest(c.ice, d.bytes, d.from, hmac);
    hide Parsed, Events, IceProperties.ReplyBytes, Judge, Answerable;
    var e := Events(c.ice, d.bytes, d.from, hmac);
    if e != [] {
      OnlyFirstSends(e);
    }
  }

  lemma {:induction false} OnlyFirstSends(e: seq<IceEvent>)
    requires e != [] && e[0].Send? && forall i :: 1 <= i < |e| ==> !e[i].Send?
    ensures StunReplies(e) == [StunOut(e[0].bytes, e[0].to)]
  {
    if |e| == 1 {
      assert e[..0] == [];
    } else {
      OnlyFirstSends(e[..|e| - 1]);
    }
  }

  /** Anything else is ignored. */
  lemma OtherDatagram(c: Conn, d: Datagram, hmac: Hmac)
    requires d.Valid() && !DtlsShaped(d.bytes) && Parsed(d.bytes).None?
    ensures Step(c, d, hmac) == (c, [])
  {
    hide Parsed, IsStun, IsDtls;
    NotDtls(d.bytes);
  }

  // ---- replies over every run -------------------------------------------------------------------

  /** The STUN messages among some effects. */
  function StunOnly(fx: seq<Effect>): seq<Effect> {
    if fx == [] then []
    else StunOnly(fx[..|fx| - 1]) + if fx[|fx| - 1].StunOut? then [fx[|fx| - 1]] else []
  }

  /** One reply per request of a run, in order. */
  function Replies(c: Conn, run: seq<Datagram>, hmac: Hmac): seq<Effect>
    requires RunOk(run)
  {
    if run == [] then []
    else
      var init, last := run[..|run| - 1], run[|run| - 1];
      Replies(c, init, hmac)
      + if Parsed(last.bytes).Some? then Answers(StateAfter(c, init, hmac), last, hmac) else []
  }

  lemma {:induction false} StunOnlyConcat(a: seq<Effect>, b: seq<Effect>)
    ensures StunOnly(a + b) == StunOnly(a) + StunOnly(b)
  {
    if b == [] {
      assert a + b == a;
    } else {
      StunOnlyConcat(a, b[..|b| - 1]);
      assert (a + b)[..|a + b| - 1] == a + b[..|b| - 1];
    }
  }

  lemma StunOnlyOne(e: Effect)
    ensures StunOnly([e]) == (if e.StunOut? then [e] else []) && StunOnly([]) == []
  {
    assert [e][..0] == [];
  }

  lemma StepReplies(c: Conn, d: Datagram, ufrag: seq<byte>, pwd: seq<byte>, hmac: Hmac)
    requires StateSafe(c) && OwnCredentials(c, ufrag, pwd) && d.Valid()
    ensures StunOnly(Step(c, d, hmac).1) == if Parsed(d.bytes).Some? then Answers(c, d, hmac) else []
  {
    hide Parsed, Step, StunOnly, StateSafe, OwnCredentials, ServerSession, IceProperties.ReplyBytes, Judge, Opens;
    StunOnlyOne(RemoteSet(d.from));
    if Parsed(d.bytes).Some? {
      StunDatagram(c, d, ufrag, pwd, hmac);
      var a := Answers(c, d, hmac);
      StunOnlyConcat(a, [RemoteSet(d.from)]);
      if a != [] {
        StunOnlyOne(a[0]);
        assert a == [a[0]];
      }
      assert a + [] == a;
    } else if DtlsShaped(d.bytes) {
      DtlsDatagram(c, d, hmac);
      var x := DtlsOut(d.o.outgoing, c.remote);
      var running := c.dtls.state == D.Connecting || c.dtls.state == D.Connected;
      var first := if running && d.o.outgoing != [] then [x] else [];
      var second := if Finishing(c.dtls, d.o) then [SrtpCreated(ServerSession(d.o))] else [];
      StunOnlyOne(x);
      if second != [] {
        StunOnlyOne(second[0]);
      }
      StunOnlyConcat(first, second);
    } else {
      OtherDatagram(c, d, hmac);
    }
  }

  /** Over every run the STUN messages sent are exactly the replies to its requests, in order. */
  lemma {:induction false} RepliesExactly(ufrag: seq<byte>, pwd: seq<byte>, run: seq<Datagram>, hmac: Hmac)
    requires RunOk(run)
    ensures StunOnly(Effects(Start(ufrag, pwd), run, hmac)) == Replies(Start(ufrag, pwd), run, hmac)
  {
    hide Step, StateSafe, OwnCredentials, Opens, Answers;
    if run != [] {
      var c, init := Start(ufrag, pwd), run[..|run| - 1];
      RepliesExactly(ufrag, pwd, init, hmac);
      EveryRunSafe(ufrag, pwd, init, hmac);
      var first := OpenedByAuthenticRequest(ufrag, pwd, init, hmac);
      var b := StateAfter(c, init, hmac);
      StepReplies(b, run[|run| - 1], ufrag, pwd, hmac);
      StunOnlyConcat(Effects(c, init, hmac), Step(b, run[|run| - 1], hmac).1);
    }
  }

  // ---- the session over every run ---------------------------------------------------------------

  /** OpenSSL reports neither the end of the handshake, nor a shutdown, nor a fatal error, nor a long timeout. */
  predicate Quiet(o: D.Oracle) {
    !o.handshakeDone && !o.peerClosed && o.err != D.ErrorSsl && o.err != D.Syscall && o.timeoutMs < 30000
  }

  /** `first` is where a run opens, or its length. */
  predicate OpensAt(run: seq<Datagram>, first: nat, ufrag: seq<byte>, pwd: seq<byte>, hmac: Hmac) {
    && first <= |run| && (forall i :: 0 <= i < first ==> !Opens(run[i], ufrag, pwd, hmac))
    && (first < |run| ==> Opens(run[first], ufrag, pwd, hmac))
  }

  /** Between the opening and datagram `j` no DTLS datagram settled anything. */
  predicate Waiting(run: seq<Datagram>, first: nat, j: nat)
    requires j <= |run|
  {
    && first < j
    && forall m :: first < m < j && DtlsShaped(run[m].bytes) ==> !run[first].o.handshakeDone && Quiet(run[m].o)
  }

  /** Datagram `k` finishes the handshake with a suite. */
  predicate Finishes(run: seq<Datagram>, first: nat, k: nat) {
    && first < k < |run| && Waiting(run, first, k) && DtlsShaped(run[k].bytes)
    && (run[first].o.handshakeDone || run[k].o.handshakeDone) && run[k].o.suite.Some?
  }

  lemma NextState(c: Conn, d: Datagram, ufrag: seq<byte>, pwd: seq<byte>, hmac: Hmac)
    requires StateSafe(c) && OwnCredentials(c, ufrag, pwd) && d.Valid()
    ensures var r := Step(c, d, hmac).0;
            && (DtlsShaped(d.bytes) ==>
                  && !Opens(d, ufrag, pwd, hmac) && r.dtls == D.DataSpec(c.dtls, d.o).0
                  && r.srtp == if Finishing(c.dtls, d.o) then Some(ServerSession(d.o)) else c.srtp)
            && (!DtlsShaped(d.bytes) ==>
                  && r.srtp == c.srtp
                  && r.dtls == if c.remote.None? && Opens(d, ufrag, pwd, hmac)
                               then D.Dtls(D.Connecting, Server, false, d.o.handshakeDone) else c.dtls)
  {
    hide Parsed, Step, StateSafe, OwnCredentials, Finishing, ServerSession, DtlsShaped, Authentic, Complete, Answers;
    if DtlsShaped(d.bytes) {
      NotParsed(d.bytes);
      DtlsStep(c, d, hmac);
    } else if Parsed(d.bytes).Some? {
      StunDatagram(c, d, ufrag, pwd, hmac);
    } else {
      OtherDatagram(c, d, hmac);
    }
  }

  lemma NotParsed(s: seq<byte>)
    requires DtlsShaped(s)
    ensures Parsed(s).None?
  {
    hide Parsed;
    DtlsIsNotStun(s);
    NotStun(s);
  }

  lemma DtlsStep(c: Conn, d: Datagram, hmac: Hmac)
    requires StateSafe(c) && d.Valid() && DtlsShaped(d.bytes)
    ensures var r := Step(c, d, hmac).0;
            && r.dtls == D.DataSpec(c.dtls, d.o).0
            && r.srtp == if Finishing(c.dtls, d.o) then Some(ServerSession(d.o)) else c.srtp
  {
    hide Step, StateSafe, Finishing, ServerSession, D.DataSpec;
    DtlsDatagram(c, d, hmac);
  }

  /** The opening of a run, seen from its first datagrams. */
  lemma OpensBefore(run: seq<Datagram>, first: nat, ufrag: seq<byte>, pwd: seq<byte>, hmac: Hmac)
    requires run != [] && OpensAt(run, first, ufrag, pwd, hmac)
    ensures OpensAt(run[..|run| - 1], if first < |run| then first else first - 1, ufrag, pwd, hmac)
  {
    hide Opens;
  }

  /** One datagram's effect on the state of DTLS, as far as connecting goes. */
  lemma DtlsTransition(d: D.Dtls, o: D.Oracle)
    requires D.Quiescent(d) && o.Valid()
    ensures var r := D.DataSpec(d, o).0;
            && (r.state == D.New <==> d.state == D.New)
            && (r.state == D.Connecting <==> d.state == D.Connecting && !d.now && Quiet(o))
            && (r.state == D.Connecting ==> r == d)
  {
    hide D.DataSpec;
    if d.state == D.Connecting {
      DataWhileConnecting(d, o);
    } else if d.state == D.Connected {
      DataWhileConnected(d, o);
    } else {
      DataWhileStopped(d, o);
    }
  }

  lemma WaitingSnoc(run: seq<Datagram>, first: nat)
    requires run != []
    ensures first >= |run| ==> !Waiting(run, first, |run|)
    ensures first == |run| - 1 ==> Waiting(run, first, |run|)
    ensures first < |run| - 1 ==>
              (Waiting(run, first, |run|) <==>
                 && Waiting(run[..|run| - 1], first, |run| - 1)
                 && (DtlsShaped(run[|run| - 1].bytes) ==> !run[first].o.handshakeDone && Quiet(run[|run| - 1].o)))
  {
    hide DtlsShaped, Quiet;
    var init := run[..|run| - 1];
    assert forall m :: 0 <= m < |init| ==> init[m] == run[m];
  }

  /** Connecting, over every run: DTLS datagrams since the opening have settled nothing, and that is the whole state. */
  lemma {:induction false} ConnectingExactly(ufrag: seq<byte>, pwd: seq<byte>, run: seq<Datagram>, first: nat,
                                             hmac: Hmac)
    requires RunOk(run) && OpensAt(run, first, ufrag, pwd, hmac)
    ensures var d := StateAfter(Start(ufrag, pwd), run, hmac).dtls;
            && (d.state == D.New <==> first == |run|)
            && (d.state == D.Connecting <==> Waiting(run, first, |run|))
            && (d.state == D.Connecting ==> d == D.Dtls(D.Connecting, Server, false, run[first].o.handshakeDone))
  {
    hide Step, Opens, Quiet, DtlsShaped, D.DataSpec, Finishing, ServerSession, TraceSafe;
    if run != [] {
      var init, last := run[..|run| - 1], run[|run| - 1];
      var c := StateAfter(Start(ufrag, pwd), init, hmac);
      var before := if first < |run| then first else first - 1;
      OpensBefore(run, first, ufrag, pwd, hmac);
      ConnectingExactly(ufrag, pwd, init, before, hmac);
      EveryRunSafe(ufrag, pwd, init, hmac);
      var at := OpenedByAuthenticRequest(ufrag, pwd, init, hmac);
      WaitingSnoc(run, first);
      hide Waiting, OwnCredentials;
      NextState(c, last, ufrag, pwd, hmac);
      DtlsTransition(c.dtls, last.o);
    }
  }

  lemma FinishesEarlier(run: seq<Datagram>, first: nat, before: nat, k: nat)
    requires run != [] && k < |run| - 1 && first <= |run| && before == if first < |run| then first else first - 1
    ensures Finishes(run, first, k) <==> Finishes(run[..|run| - 1], before, k)
  {
    hide DtlsShaped, Quiet;
    var init := run[..|run| - 1];
    assert forall m :: 0 <= m < |init| ==> init[m] == run[m];
  }

  lemma LastFinishes(run: seq<Datagram>, first: nat, before: nat)
    requires run != [] && first <= |run| && before == if first < |run| then first else first - 1
    ensures var init, last := run[..|run| - 1], run[|run| - 1];
            Finishes(run, first, |run| - 1)
            <==> && Waiting(init, before, |init|) && DtlsShaped(last.bytes)
                 && (init[before].o.handshakeDone || last.o.handshakeDone) && last.o.suite.Some?
  {
    hide DtlsShaped, Quiet;
    var init := run[..|run| - 1];
    assert forall m :: 0 <= m < |init| ==> init[m] == run[m];
  }

  /**
   * The session, over every run: there is one exactly if some DTLS datagram behind the opening finishes the handshake
   * with a suite before anything settled it otherwise, and it has the suite and the server's key of that datagram.
   */
  lemma {:induction false} SessionExactly(ufrag: seq<byte>, pwd: seq<byte>, run: seq<Datagram>, first: nat,
                                          hmac: Hmac) returns (k: nat)
    requires RunOk(run) && OpensAt(run, first, ufrag, pwd, hmac)
    ensures k <= |run| && (k < |run| ==> Finishes(run, first, k)) && forall j: nat :: Finishes(run, first, j) ==> j == k
    ensures StateAfter(Start(ufrag, pwd), run, hmac).srtp
         == if k < |run| then Some(ServerSession(run[k].o)) else None
  {
    hide Step, Opens, Quiet, DtlsShaped, D.DataSpec, ServerSession, TraceSafe, Waiting;
    if run == [] {
      k := 0;
    } else {
      var init, last := run[..|run| - 1], run[|run| - 1];
      var c := StateAfter(Start(ufrag, pwd), init, hmac);
      var before := if first < |run| then first else first - 1;
      OpensBefore(run, first, ufrag, pwd, hmac);
      k := SessionExactly(ufrag, pwd, init, before, hmac);
      ConnectingExactly(ufrag, pwd, init, before, hmac);
      EveryRunSafe(ufrag, pwd, init, hmac);
      var at := OpenedByAuthenticRequest(ufrag, pwd, init, hmac);
      hide OwnCredentials, OpensAt;
      NextState(c, last, ufrag, pwd, hmac);
      LastFinishes(run, first, before);
      forall j: nat | Finishes(run, first, j)
        ensures j < |run| && (j < |run| - 1 ==> j == k)
      {
        if j < |run| - 1 {
          FinishesEarlier(run, first, before, j);
        }
      }
      hide Finishes;
      if k < |init| {
        FinishesEarlier(run, first, before, k);
      } else if !Finishes(run, first, |run| - 1) {
        k := |run|;
      }
    }
  }
}
