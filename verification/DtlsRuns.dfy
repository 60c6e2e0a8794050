/** Every run of the DTLS transport, whatever OpenSSL answers: invariant and listener traces. */
module DtlsRuns {
  import opened Bytes
  import opened SrtpKeys
  import opened DtlsTransports

  datatype Call = Run(role: Role, o: Oracle) | SetFingerprint | Data(o: Oracle) | SendApp(len: nat, o: Oracle)

  predicate CallOk(c: Call) {
    match c
    case Run(role, o) => (role == Client || role == Server) && o.Valid()
    case SetFingerprint => true
    case Data(o) => o.Valid()
    case SendApp(_, o) => o.Valid()
  }

  function Step(d: Dtls, c: Call): (Dtls, seq<Event>)
    requires CallOk(c)
  {
    match c
    case Run(role, o) => RunSpec(d, role, o)
    case SetFingerprint => (d, [])
    case Data(o) => DataSpec(d, o)
    case SendApp(len, o) => SendSpec(d, len, o)
  }

  predicate CallsOk(calls: seq<Call>) {
    forall i :: 0 <= i < |calls| ==> CallOk(calls[i])
  }

  function StateAfter(calls: seq<Call>): Dtls
    requires CallsOk(calls)
  {
    if calls == [] then FRESH else Step(StateAfter(calls[..|calls| - 1]), calls[|calls| - 1]).0
  }

  /** Everything the listener is told. */
  function Trace(calls: seq<Call>): seq<Event>
    requires CallsOk(calls)
  {
    if calls == [] then []
    else Trace(calls[..|calls| - 1]) + Step(StateAfter(calls[..|calls| - 1]), calls[|calls| - 1]).1
  }

  // ---- the listener's view ----------------------------------------------------------------------

  /** What a notification may follow, and what it tells about the state; None if it may not come. */
  function Next(s: State, e: Event): Option<State> {
    match e
    case OnConnecting => Some(Connecting)
    case OnConnected(_, _, _) => if s == Connecting then Some(Connected) else None
    case OnFailed => if Running(s) then Some(Failed) else None
    case OnClosed => if s == Connected then Some(Closed) else None
    case OnSendData(_) => if Running(s) then Some(s) else None
    case OnAppData(_) => if s == Connected then Some(s) else None
  }

  function Replay(s: State, t: seq<Event>): Option<State> {
    if t == [] then Some(s)
    else match Replay(s, t[..|t| - 1])
      case None => None
      case Some(r) => Next(r, t[|t| - 1])
  }

  lemma {:induction false} ReplayConcat(s: State, a: seq<Event>, b: seq<Event>)
    requires Replay(s, a).Some?
    ensures Replay(s, a + b) == Replay(Replay(s, a).value, b)
  {
    if b == [] {
      assert a + b == a;
    } else {
      ReplayConcat(s, a, b[..|b| - 1]);
      assert (a + b)[..|a + b| - 1] == a + b[..|b| - 1];
    }
  }

  lemma ReplayOne(s: State, e: Event)
    ensures Replay(s, [e]) == Next(s, e)
  {
    assert [e][..0] == [];
  }

  lemma ReplayFlush(s: State, o: Oracle)
    requires Running(s)
    ensures Replay(s, Flush(o)) == Some(s)
  {
    ReplayOne(s, OnSendData(o.outgoing));
  }

  lemma ReplayAppData(o: Oracle)
    ensures Replay(Connected, AppData(o)) == Some(Connected)
  {
    ReplayOne(Connected, OnAppData(o.received));
  }

  lemma StepReplays(d: Dtls, c: Call)
    requires Quiescent(d) && CallOk(c)
    ensures Quiescent(Step(d, c).0) && Replay(d.state, Step(d, c).1) == Some(Step(d, c).0.state)
  {
    match c
    case Run(role, o) => RunReplays(d, role, o);
    case SetFingerprint =>
    case Data(o) => DataReplays(d, o);
    case SendApp(len, o) =>
      if d.state == Connected {
        ReplayFlush(Connected, o);
        ReplayOne(Connected, OnClosed);
      }
  }

  lemma RunReplays(d: Dtls, role: Role, o: Oracle)
    requires Quiescent(d) && (role == Client || role == Server)
    ensures var r := RunSpec(d, role, o); Quiescent(r.0) && Replay(d.state, r.1) == Some(r.0.state)
  {
    ReplayOne(d.state, OnConnecting);
    ReplayFlush(Connecting, o);
    ReplayOne(Connecting, OnFailed);
    ReplayConcat(d.state, [OnConnecting], Flush(o));
    ReplayConcat(d.state, [OnConnecting] + Flush(o), [OnFailed]);
    assert [OnConnecting] + [] == [OnConnecting];
  }

  lemma DataReplays(d: Dtls, o: Oracle)
    requires Quiescent(d) && o.Valid()
    ensures var r := DataSpec(d, o); Quiescent(r.0) && Replay(d.state, r.1) == Some(r.0.state)
  {
    hide Quiescent, Replay, Flush, ConnectingSpec, ConnectedSpec;
    if d.state == Connecting {
      ConnectingReplays(d, o);
      ReplayFlush(Connecting, o);
      ReplayConcat(Connecting, Flush(o), ConnectingSpec(d, o).1);
    } else if d.state == Connected {
      ConnectedReplays(d, o);
      ReplayFlush(Connected, o);
      ReplayConcat(Connected, Flush(o), ConnectedSpec(d, o).1);
    } else {
      ReplayNothing(d.state);
    }
  }

  lemma ReplayNothing(s: State)
    ensures Replay(s, []) == Some(s)
  {
  }

  lemma ConnectedReplays(d: Dtls, o: Oracle)
    requires Quiescent(d) && d.state == Connected
    ensures var r := ConnectedSpec(d, o); Quiescent(r.0) && Replay(Connected, r.1) == Some(r.0.state)
  {
    hide Replay;
    ReplayOne(Connected, OnClosed);
    ReplayOne(Connected, OnFailed);
    ReplayAppData(o);
  }

  lemma ConnectingReplays(d: Dtls, o: Oracle)
    requires Quiescent(d) && d.state == Connecting && o.Valid()
    ensures var r := ConnectingSpec(d, o); Quiescent(r.0) && Replay(Connecting, r.1) == Some(r.0.state)
  {
    hide Replay, Split, LocalKey, RemoteKey;
    ReplayNothing(Connecting);
    ReplayOne(Connecting, OnFailed);
    if o.suite.Some? {
      var k := Keys(o, d.role);
      ReplayOne(Connecting, k);
      ReplayOne(Connected, OnFailed);
      ReplayAppData(o);
      ReplayConcat(Connecting, [k], [OnFailed]);
      ReplayConcat(Connecting, [k], AppData(o));
      assert [k] + [OnFailed] == [k, OnFailed];
    }
  }

  /** After any calls the invariant holds, and the notifications alone determine the state. */
  lemma {:induction false} EveryRunReplays(calls: seq<Call>)
    requires CallsOk(calls)
    ensures Quiescent(StateAfter(calls)) && Replay(New, Trace(calls)) == Some(StateAfter(calls).state)
  {
    if calls != [] {
      var init, last := calls[..|calls| - 1], calls[|calls| - 1];
      EveryRunReplays(init);
      StepReplays(StateAfter(init), last);
      ReplayConcat(New, Trace(init), Step(StateAfter(init), last).1);
    }
  }

  // ---- the shape of a trace ---------------------------------------------------------------------

  datatype Ending = Open | Lost | Shut

  /** One connection attempt: Connecting, perhaps Connected and application data, perhaps an end. */
  datatype Round = Round(keys: seq<Event>, data: seq<Event>, ending: Ending) {
    predicate Valid() {
      && |keys| <= 1 && (forall i :: 0 <= i < |keys| ==> keys[i].OnConnected?)
      && (forall i :: 0 <= i < |data| ==> data[i].OnAppData?)
      && (keys == [] ==> data == [] && ending != Shut)
    }

    function Word(): seq<Event> {
      [OnConnecting] + keys + data + match ending case Open => [] case Lost => [OnFailed] case Shut => [OnClosed]
    }

    function Status(): State {
      match ending
      case Open => if keys == [] then Connecting else Connected
      case Lost => Failed
      case Shut => Closed
    }
  }

  function Words(rs: seq<Round>): seq<Event> {
    if rs == [] then [] else Words(rs[..|rs| - 1]) + rs[|rs| - 1].Word()
  }

  predicate AllValid(rs: seq<Round>) {
    forall i :: 0 <= i < |rs| ==> rs[i].Valid()
  }

  function Status(rs: seq<Round>): State {
    if rs == [] then New else rs[|rs| - 1].Status()
  }

  /** A trace without the outgoing datagrams. */
  function Lifecycle(t: seq<Event>): seq<Event> {
    if t == [] then []
    else Lifecycle(t[..|t| - 1]) + if t[|t| - 1].OnSendData? then [] else [t[|t| - 1]]
  }

  /** A round that has not ended takes up one more notification. */
  lemma ExtendRound(last: Round, e: Event) returns (more: Round)
    requires last.Valid() && Next(last.Status(), e).Some? && !e.OnSendData? && e != OnConnecting
    ensures more.Valid() && more.Word() == last.Word() + [e] && more.Status() == Next(last.Status(), e).value
  {
    more := match e
      case OnConnected(_, _, _) => last.(keys := [e])
      case OnAppData(_) => last.(data := last.data + [e])
      case OnFailed => last.(ending := Lost)
      case OnClosed => last.(ending := Shut)
      case _ => last;
    assert last.Word() == [OnConnecting] + last.keys + last.data + [];
    assert more.Word() == last.Word() + [e];
  }

  lemma Extend(rs: seq<Round>, e: Event) returns (r: seq<Round>)
    requires AllValid(rs) && Next(Status(rs), e).Some? && !e.OnSendData?
    ensures AllValid(r) && Words(r) == Words(rs) + [e] && Status(r) == Next(Status(rs), e).value
  {
    if e == OnConnecting {
      var one := Round([], [], Open);
      r := rs + [one];
      assert r[..|rs|] == rs && one.Word() == [OnConnecting];
    } else {
      hide Round.Word, Round.Valid, Round.Status;
      var n := |rs| - 1;
      var more := ExtendRound(rs[n], e);
      r := rs[..n] + [more];
      assert r[..n] == rs[..n] && r[n] == more;
      assert Words(rs[..n]) + (rs[n].Word() + [e]) == (Words(rs[..n]) + rs[n].Word()) + [e];
    }
  }

  lemma {:induction false} LegalTraceShape(t: seq<Event>) returns (rs: seq<Round>)
    requires Replay(New, t).Some?
    ensures AllValid(rs) && Words(rs) == Lifecycle(t) && Status(rs) == Replay(New, t).value
  {
    if t == [] {
      rs := [];
    } else {
      rs := LegalTraceShape(t[..|t| - 1]);
      if !t[|t| - 1].OnSendData? {
        rs := Extend(rs, t[|t| - 1]);
      }
    }
  }

  /**
   * Every listener trace is (Connecting (Connected AppData*)? (Failed | Closed)?)*, with Closed only after
   * a Connected of its own round; its last round tells the state.
   */
  lemma EveryTraceShape(calls: seq<Call>) returns (rs: seq<Round>)
    requires CallsOk(calls)
    ensures AllValid(rs) && Words(rs) == Lifecycle(Trace(calls)) && Status(rs) == StateAfter(calls).state
  {
    EveryRunReplays(calls);
    rs := LegalTraceShape(Trace(calls));
  }
}
