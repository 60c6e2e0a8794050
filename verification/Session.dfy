/** Routing: splitting the username, and the table of sessions keyed by their username fragments. */
module Sessions {
  import opened Bytes
  import opened StunGrammar
  import opened StunMessage
  import opened StunPackets
  import IceServers
  import Random

  // ---- Split ------------------------------------------------------------------------------------

  predicate OccursAt(s: seq<byte>, d: seq<byte>, i: nat) {
    i + |d| <= |s| && s[i..i + |d|] == d
  }

  predicate Free(s: seq<byte>, d: seq<byte>) {
    forall i :: 0 <= i <= |s| ==> !OccursAt(s, d, i)
  }

  /** `std::string::find`: the first occurrence from a position on. */
  function Find(s: seq<byte>, d: seq<byte>, from: nat): (r: Option<nat>)
    ensures r.Some? ==> from <= r.value && OccursAt(s, d, r.value)
    ensures r.Some? ==> forall i :: from <= i < r.value ==> !OccursAt(s, d, i)
    ensures r.None? ==> forall i :: from <= i <= |s| ==> !OccursAt(s, d, i)
    decreases |s| - from
  {
    if from > |s| then None else if OccursAt(s, d, from) then Some(from) else Find(s, d, from + 1)
  }

  /** Pieces with the delimiter between them. */
  function Join(pieces: seq<seq<byte>>, d: seq<byte>): seq<byte> {
    if pieces == [] then []
    else if |pieces| == 1 then pieces[0]
    else Join(pieces[..|pieces| - 1], d) + d + pieces[|pieces| - 1]
  }

  lemma SliceFree(s: seq<byte>, d: seq<byte>, lo: nat, hi: nat)
    requires lo <= hi <= |s| && d != [] && forall i :: lo <= i < hi ==> !OccursAt(s, d, i)
    ensures Free(s[lo..hi], d)
  {
    forall i | 0 <= i <= hi - lo
      ensures !OccursAt(s[lo..hi], d, i)
    {
      if OccursAt(s[lo..hi], d, i) {
        SliceOfSlice(s, lo, hi, i, i + |d|);
        assert OccursAt(s, d, lo + i);
      }
    }
  }

  lemma SliceOfSlice(s: seq<byte>, lo: nat, hi: nat, i: nat, j: nat)
    requires lo <= hi <= |s| && i <= j <= hi - lo
    ensures s[lo..hi][i..j] == s[lo + i..lo + j]
  {
    forall k | 0 <= k < j - i
      ensures s[lo..hi][i..j][k] == s[lo + i..lo + j][k]
    {
      assert s[lo..hi][i + k] == s[lo + (i + k)];
    }
  }

  lemma JoinSnoc(pieces: seq<seq<byte>>, d: seq<byte>, p: seq<byte>)
    requires pieces != []
    ensures Join(pieces + [p], d) == Join(pieces, d) + d + p
  {
    assert (pieces + [p])[..|pieces|] == pieces;
  }

  /** Joining what Split returns gives the input back, and no piece holds the delimiter. */
  method Split(s: seq<byte>, d: seq<byte>) returns (ret: seq<seq<byte>>)
    requires d != []
    ensures ret != [] && Join(ret, d) == s && forall i :: 0 <= i < |ret| ==> Free(ret[i], d)
  {
    hide Free, OccursAt, Join, Find;
    ret := [];
    var last := 0;
    var index := Find(s, d, last);
    while index != None
      invariant last <= |s| && index == Find(s, d, last)
      invariant forall i :: 0 <= i < |ret| ==> Free(ret[i], d)
      invariant if ret == [] then last == 0 else Join(ret, d) + d == s[..last]
      decreases |s| - last
    {
      var at := index.value;
      Occurrence(s, d, at);
      SliceFree(s, d, last, at);
      PieceAdded(s, d, ret, last, at);
      assert s[..at] + d == s[..at + |d|];
      ret := ret + [s[last..at]];
      last := at + |d|;
      index := Find(s, d, last);
    }
    SliceFree(s, d, last, |s|);
    PieceAdded(s, d, ret, last, |s|);
    assert s[last..|s|] == s[last..] && s[..|s|] == s;
    ret := ret + [s[last..]];
  }

  /** One more piece brings the join up to its end. */
  lemma PieceAdded(s: seq<byte>, d: seq<byte>, ret: seq<seq<byte>>, last: nat, at: nat)
    requires last <= at <= |s| && if ret == [] then last == 0 else Join(ret, d) + d == s[..last]
    ensures Join(ret + [s[last..at]], d) == s[..at]
  {
    if ret != [] {
      hide Join;
      JoinSnoc(ret, d, s[last..at]);
      assert s[..last] + s[last..at] == s[..at];
    } else {
      assert [] + [s[last..at]] == [s[last..at]] && s[last..at] == s[..at];
    }
  }

  lemma Occurrence(s: seq<byte>, d: seq<byte>, i: nat)
    requires OccursAt(s, d, i)
    ensures i + |d| <= |s| && s[i..i + |d|] == d
  {
  }

  lemma FreeOfOctet(s: seq<byte>, c: byte)
    requires Free(s, [c])
    ensures c !in s
  {
    forall i | 0 <= i < |s|
      ensures s[i] != c
    {
      if s[i] == c {
        assert s[i..i + 1] == [c];
        assert OccursAt(s, [c], i);
      }
    }
  }

  predicate NoneHolds(pieces: seq<seq<byte>>, c: byte) {
    forall i :: 0 <= i < |pieces| ==> c !in pieces[i]
  }

  /** Where the last piece starts: behind the last delimiter. */
  lemma LastPiece(pieces: seq<seq<byte>>, c: byte)
    requires pieces != [] && NoneHolds(pieces, c)
    ensures var s, n := Join(pieces, [c]), |pieces[|pieces| - 1]|;
            && n <= |s| && s[|s| - n..] == pieces[|pieces| - 1]
            && (|pieces| > 1 ==> && n < |s| && s[|s| - n - 1] == c
                                 && s[..|s| - n - 1] == Join(pieces[..|pieces| - 1], [c]))
            && (|pieces| == 1 ==> n == |s|)
  {
  }

  /** Split is the only list of delimiter-free pieces that joins to the input. */
  lemma {:induction false} JoinInjective(a: seq<seq<byte>>, b: seq<seq<byte>>, c: byte)
    requires a != [] && b != [] && NoneHolds(a, c) && NoneHolds(b, c) && Join(a, [c]) == Join(b, [c])
    ensures a == b
    decreases |a|
  {
    hide Join;
    LastPiece(a, c);
    LastPiece(b, c);
    var s, m, n := Join(a, [c]), |a[|a| - 1]|, |b[|b| - 1]|;
    LastDelimiter(s, a[|a| - 1], b[|b| - 1], |a| > 1, |b| > 1, c);
    if |a| > 1 {
      JoinInjective(a[..|a| - 1], b[..|b| - 1], c);
      assert a == a[..|a| - 1] + [a[|a| - 1]];
      assert b == b[..|b| - 1] + [b[|b| - 1]];
    }
  }

  lemma SuffixFree(s: seq<byte>, x: seq<byte>, c: byte)
    requires c !in x && |x| <= |s| && s[|s| - |x|..] == x
    ensures forall k :: |s| - |x| <= k < |s| ==> s[k] != c
  {
    forall k | |s| - |x| <= k < |s|
      ensures s[k] != c
    {
      assert x[k - (|s| - |x|)] == s[k];
    }
  }

  lemma LastDelimiter(s: seq<byte>, x: seq<byte>, y: seq<byte>, p: bool, q: bool, c: byte)
    requires c !in x && c !in y && |x| <= |s| && |y| <= |s| && s[|s| - |x|..] == x && s[|s| - |y|..] == y
    requires if p then |x| < |s| && s[|s| - |x| - 1] == c else |x| == |s|
    requires if q then |y| < |s| && s[|s| - |y| - 1] == c else |y| == |s|
    ensures x == y && p == q
  {
    SuffixFree(s, x, c);
    SuffixFree(s, y, c);
  }

  lemma {:induction false} FirstPiece(pieces: seq<seq<byte>>, c: byte)
    requires pieces != []
    ensures var s := Join(pieces, [c]);
            && |pieces[0]| <= |s| && s[..|pieces[0]|] == pieces[0]
            && (|pieces| > 1 ==> |pieces[0]| < |s| && s[|pieces[0]|] == c)
            && (|pieces| == 1 ==> s == pieces[0])
  {
    if |pieces| > 1 {
      FirstPiece(pieces[..|pieces| - 1], c);
    }
  }

  // ---- routing ----------------------------------------------------------------------------------

  /** A session as routing sees it: an identity and the credentials it was created with. */
  datatype Session = Session(id: nat, ufrag: seq<byte>, pwd: seq<byte>)

  /** The octets before the first colon. */
  function BeforeColon(u: seq<byte>): (r: seq<byte>) {
    if u == [] || u[0] == COLON then [] else [u[0]] + BeforeColon(u[1..])
  }

  lemma {:induction false} BeforeColonIs(u: seq<byte>, p: seq<byte>)
    requires COLON !in p && |p| <= |u| && u[..|p|] == p && (|p| < |u| ==> u[|p|] == COLON)
    ensures BeforeColon(u) == p
  {
    if p != [] {
      assert u[0] == p[0] && u[1..][..|p| - 1] == p[1..];
      BeforeColonIs(u[1..], p[1..]);
      assert p == [p[0]] + p[1..];
    }
  }

  /** Every key is the fragment of its session, and fragments hold no colon. */
  predicate WellKeyed(sessions: map<seq<byte>, Session>) {
    forall k :: k in sessions ==> sessions[k].ufrag == k && COLON !in k
  }

  function Lookup(sessions: map<seq<byte>, Session>, key: seq<byte>): Option<Session> {
    if key in sessions then Some(sessions[key]) else None
  }

  function Route(sessions: map<seq<byte>, Session>, username: seq<byte>): Option<Session> {
    Lookup(sessions, BeforeColon(username))
  }

  /** A username that passes a registered session's prefix check goes to that session, and passes no other's. */
  lemma RoutingAgrees(sessions: map<seq<byte>, Session>, k: seq<byte>, username: seq<byte>)
    requires WellKeyed(sessions) && k in sessions && PrefixOk(username, sessions[k].ufrag)
    ensures Route(sessions, username) == Some(sessions[k])
    ensures forall j :: j in sessions && PrefixOk(username, sessions[j].ufrag) ==> j == k
  {
    BeforeColonIs(username, k);
    forall j | j in sessions && PrefixOk(username, sessions[j].ufrag)
      ensures j == k
    {
      BeforeColonIs(username, j);
    }
  }

  /** So a datagram that authenticates against a registered session is never handed to another one. */
  lemma AuthenticIsRouted(sessions: map<seq<byte>, Session>, k: seq<byte>, s: seq<byte>, hmac: Hmac)
    requires WellKeyed(sessions) && k in sessions && StunGrammar.Parsed(s).Some?
    requires IceServers.Authentic(s, sessions[k].ufrag, sessions[k].pwd, hmac)
    ensures Route(sessions, StunGrammar.Parsed(s).value.fields.username) == Some(sessions[k])
  {
    hide Parsed, Verifies, PrefixOk;
    RoutingAgrees(sessions, k, StunGrammar.Parsed(s).value.fields.username);
  }

  lemma SymbolsHoldNoColon(s: seq<byte>)
    requires forall i :: 0 <= i < |s| ==> Random.IsSymbol(s[i])
    ensures COLON !in s
  {
  }

  // ---- creating sessions ------------------------------------------------------------------------

  /** The factory as a value; `fragmentFirst` is the order in which credentials are drawn. */
  datatype Factory = Factory(sessions: map<seq<byte>, Session>, created: nat, seed: nat, fragmentFirst: bool) {
    predicate Valid() {
      seed < Random.MODULUS && WellKeyed(sessions) && forall k :: k in sessions ==> sessions[k].id < created
    }

    /** The fragment the next session gets: known from the seed before it is drawn. */
    function NextFragment(): seq<byte>
      requires Valid()
    {
      Random.DrawnFragment(seed, fragmentFirst)
    }

    function NextSession(): Session
      requires Valid()
    {
      Session(created, NextFragment(), Random.DrawnPassword(seed, fragmentFirst))
    }

    /** `map::insert`: a fragment already taken leaves the table as it was. */
    function Create(): (f: Factory)
      requires Valid()
      ensures f.Valid()
    {
      hide Random.Symbols, Random.Iterate;
      FragmentHoldsNoColon(this);
      var table := if NextFragment() in sessions then sessions else sessions[NextFragment() := NextSession()];
      Factory(table, created + 1, Random.IterateBound(seed, 28), fragmentFirst)
    }
  }

  lemma FragmentHoldsNoColon(f: Factory)
    requires f.Valid()
    ensures COLON !in f.NextFragment()
  {
    hide Random.Symbols, Random.Iterate, Random.IsSymbol;
    Random.SymbolsInAlphabet(if f.fragmentFirst then f.seed else Random.IterateBound(f.seed, 24), 4);
    SymbolsHoldNoColon(f.NextFragment());
  }

  class SessionFactory {
    const crypto: Random.Crypto
    const fragmentFirst: bool
    var sessions: map<seq<byte>, Session>
    var created: nat

    constructor (crypto: Random.Crypto, fragmentFirst: bool)
      requires crypto.seed < Random.MODULUS
      ensures this.crypto == crypto && View() == Factory(map[], 0, crypto.seed, fragmentFirst) && View().Valid()
    {
      this.crypto, this.fragmentFirst, sessions, created := crypto, fragmentFirst, map[], 0;
    }

    ghost function View(): Factory
      reads this, crypto
    {
      Factory(sessions, created, crypto.seed, fragmentFirst)
    }

    /** Registered iff the fragment the seed gives is free; the table keeps everything it had. */
    method CreateWebRTCSession() returns (session: Session)
      requires View().Valid()
      modifies this, crypto
      ensures View() == old(View()).Create() && session == old(View()).NextSession()
      ensures session in sessions.Values <==> old(View()).NextFragment() !in old(sessions)
      ensures forall k :: k in old(sessions) ==> k in sessions && sessions[k] == old(sessions[k])
    {
      hide Random.Iterate, Random.DrawnFragment, Random.DrawnPassword;
      var ufrag, pwd := crypto.GetCredentials(fragmentFirst);
      session := Session(created, ufrag, pwd);
      created := created + 1;
      if ufrag !in sessions {
        sessions := sessions[ufrag := session];
        assert sessions[ufrag] in sessions.Values;
      }
    }

    /** The one registered session whose fragment is the key, or none if there is no such session. */
    method GetWebRTCSession(key: seq<byte>) returns (r: Option<Session>)
      requires WellKeyed(sessions)
      ensures r.Some? ==> r.value in sessions.Values && r.value.ufrag == key
      ensures r.None? ==> forall s :: s in sessions.Values ==> s.ufrag != key
    {
      if key in sessions {
        r := Some(sessions[key]);
      } else {
        r := None;
      }
    }

    /** The session a first datagram is handed to. */
    method HandlePacket(buf: array<byte>, len: nat) returns (target: Option<Session>)
      requires WellKeyed(sessions) && len <= buf.Length && len <= 0xFFFC
      ensures target == match StunGrammar.Parsed(buf[..len])
                        case None => None
                        case Some(p) => Route(sessions, p.fields.username)
    {
      hide Parsed, Join, Free;
      var s := buf[..len];
      if !IsStun(s) {
        NotStun(s);
        return None;
      }
      var packet := StunPacket.Parse(buf, len);
      if packet == null {
        return None;
      }
      var pieces := Split(packet.username, [COLON]);
      SplitHead(packet.username, pieces);
      target := GetWebRTCSession(pieces[0]);
      assert Lookup(sessions, pieces[0]) == target;
    }
  }

  lemma SplitHead(u: seq<byte>, pieces: seq<seq<byte>>)
    requires pieces != [] && Join(pieces, [COLON]) == u && forall i :: 0 <= i < |pieces| ==> Free(pieces[i], [COLON])
    ensures pieces[0] == BeforeColon(u)
  {
    hide Join;
    FreeOfOctet(pieces[0], COLON);
    FirstPiece(pieces, COLON);
    BeforeColonIs(u, pieces[0]);
  }
}
