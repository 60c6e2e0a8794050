/** Which sessions can ever be reached, over any number of creations. */
module SessionRuns {
  import opened Bytes
  import opened Sessions
  import Random
  import opened RandomDraws

  function After(f: Factory, n: nat): (r: Factory)
    requires f.Valid()
    ensures r.Valid()
  {
    if n == 0 then f else After(f, n - 1).Create()
  }

  /** The fragment drawn by creation `i`, a function of the first seed alone. */
  function Fragment(f: Factory, i: nat): seq<byte>
    requires f.Valid()
  {
    After(f, i).NextFragment()
  }

  function Nth(f: Factory, i: nat): Session
    requires f.Valid()
  {
    After(f, i).NextSession()
  }

  predicate Taken(f: Factory, i: nat)
    requires f.Valid()
  {
    Fragment(f, i) in After(f, i).sessions
  }

  /** Some key is answered with the session. */
  ghost predicate Found(sessions: map<seq<byte>, Session>, s: Session) {
    exists k :: Lookup(sessions, k) == Some(s)
  }

  /** Session `i` can be reached after `n` creations. */
  ghost predicate Reachable(f: Factory, i: nat, n: nat)
    requires f.Valid()
  {
    Found(After(f, n).sessions, Nth(f, i))
  }

  lemma NoCreation(f: Factory)
    requires f.Valid()
    ensures After(f, 0) == f
  {
  }

  lemma OneCreation(f: Factory, n: nat)
    requires f.Valid()
    ensures var b, a, u := After(f, n), After(f, n + 1), Fragment(f, n);
            && a.created == b.created + 1 && a.seed == Random.Iterate(b.seed, 28) && a.fragmentFirst == b.fragmentFirst
            && a.sessions == if u in b.sessions then b.sessions else b.sessions[u := Nth(f, n)]
  {
    hide Random.Symbols, Random.Iterate;
  }

  lemma {:induction false} Counts(f: Factory, n: nat)
    requires f.Valid()
    ensures var r := After(f, n);
            && r.created == f.created + n && r.fragmentFirst == f.fragmentFirst
            && r.seed == Random.Iterate(f.seed, 28 * n)
  {
    hide *;
    if n == 0 {
      NoCreation(f);
      Random.IterateNone(f.seed);
    } else {
      Counts(f, n - 1);
      OneCreation(f, n - 1);
      Random.IterateAdd(f.seed, 28 * (n - 1), 28);
    }
  }

  /** A bound key is never bound to anything else. */
  lemma {:induction false} BoundForever(f: Factory, m: nat, n: nat, k: seq<byte>)
    requires f.Valid() && m <= n && k in After(f, m).sessions
    ensures k in After(f, n).sessions && After(f, n).sessions[k] == After(f, m).sessions[k]
  {
    hide *;
    if m < n {
      BoundForever(f, m, n - 1, k);
      OneCreation(f, n - 1);
    }
  }

  /** A session is reachable, then and forever, exactly if its fragment was free when it was drawn. */
  lemma ReachableIffFree(f: Factory, i: nat, n: nat)
    requires f.Valid() && i < n
    ensures Reachable(f, i, n) <==> !Taken(f, i)
  {
    NthIs(f, i);
    ValidTable(After(f, i));
    ValidTable(After(f, n));
    hide *;
    var u, s, t := Fragment(f, i), Nth(f, i), After(f, n).sessions;
    if Taken(f, i) {
      BoundForever(f, i, n, u);
      OnlyUnderItsFragment(t, s);
    } else {
      BoundForever(f, i + 1, n, u);
      OnlyUnderItsFragment(t, s);
    }
    FoundIsReachable(f, i, n);
  }

  lemma ValidTable(f: Factory)
    requires f.Valid()
    ensures WellKeyed(f.sessions) && forall k :: k in f.sessions ==> f.sessions[k].id < f.created
  {
  }

  lemma OnlyUnderItsFragment(t: map<seq<byte>, Session>, s: Session)
    requires WellKeyed(t)
    ensures Found(t, s) <==> s.ufrag in t && t[s.ufrag] == s
  {
    if s.ufrag in t && t[s.ufrag] == s {
      assert Lookup(t, s.ufrag) == Some(s);
    }
  }

  lemma FoundIsReachable(f: Factory, i: nat, n: nat)
    requires f.Valid()
    ensures Reachable(f, i, n) <==> Found(After(f, n).sessions, Nth(f, i))
  {
  }

  lemma NthIs(f: Factory, i: nat)
    requires f.Valid()
    ensures Nth(f, i).ufrag == Fragment(f, i) && Nth(f, i).id == After(f, i).created
    ensures Taken(f, i) <==> Fragment(f, i) in After(f, i).sessions
    ensures !Taken(f, i) ==> var t := After(f, i + 1).sessions; Fragment(f, i) in t && t[Fragment(f, i)] == Nth(f, i)
  {
    OneCreation(f, i);
    hide After, Random.Symbols, Random.Iterate;
  }

  /** From an empty table, the keys are the fragments drawn so far. */
  lemma {:induction false} KeysAreDrawn(f: Factory, n: nat, k: seq<byte>)
    requires f.Valid() && f.sessions == map[]
    ensures k in After(f, n).sessions <==> exists j :: 0 <= j < n && Fragment(f, j) == k
  {
    hide *;
    if n == 0 {
      NoCreation(f);
    } else {
      KeysAreDrawn(f, n - 1, k);
      OneCreation(f, n - 1);
    }
  }

  /** So a session can be reached exactly if no earlier one drew its fragment. */
  lemma ReachableIffFirst(f: Factory, i: nat, n: nat)
    requires f.Valid() && f.sessions == map[] && i < n
    ensures Reachable(f, i, n) <==> forall j :: 0 <= j < i ==> Fragment(f, j) != Fragment(f, i)
  {
    hide Reachable, After, Fragment;
    ReachableIffFree(f, i, n);
    KeysAreDrawn(f, i, Fragment(f, i));
  }

  // ---- collisions happen ------------------------------------------------------------------------

  /** 2^30 creations make 7 * 2^32 draws, so from every seed the fragments repeat. */
  lemma FragmentsRepeat(f: Factory, i: nat)
    requires f.Valid()
    ensures Fragment(f, i + 0x4000_0000) == Fragment(f, i)
  {
    hide Random.Symbols, Random.Iterate, After, Factory.Valid;
    var s := After(f, i).seed;
    Counts(f, i);
    Counts(f, i + 0x4000_0000);
    Random.IterateAdd(f.seed, 28 * i, 28 * 0x4000_0000);
    ValidSeed(After(f, i));
    Random.FullPeriod(s, 28 * 0x4000_0000);
    SameFragment(After(f, i + 0x4000_0000), After(f, i));
  }

  lemma ValidSeed(f: Factory)
    requires f.Valid()
    ensures f.seed < Random.MODULUS
  {
  }

  lemma SameFragment(f: Factory, g: Factory)
    requires f.Valid() && g.Valid() && f.seed == g.seed && f.fragmentFirst == g.fragmentFirst
    ensures f.NextFragment() == g.NextFragment()
  {
    hide Random.Symbols, Random.Iterate;
  }

  /** From every seed, no session numbered 2^30 or more is ever returned for any key. */
  lemma LateSessionsUnreachable(f: Factory, i: nat, n: nat)
    requires f.Valid() && f.sessions == map[] && 0x4000_0000 <= i < n
    ensures !Reachable(f, i, n)
  {
    hide Reachable, Fragment;
    ReachableIffFirst(f, i, n);
    FragmentsRepeat(f, i - 0x4000_0000);
  }

  // ---- and long before that ---------------------------------------------------------------------

  const FRAGMENTS := 36 * 36 * 36 * 36

  predicate IsFragment(u: seq<byte>) {
    |u| == 4 && forall i :: 0 <= i < |u| ==> Random.IsSymbol(u[i])
  }

  function Rank(u: seq<byte>): (r: nat)
    requires IsFragment(u)
    ensures r < FRAGMENTS
  {
    ((Digit(u[0]) * 36 + Digit(u[1])) * 36 + Digit(u[2])) * 36 + Digit(u[3])
  }

  lemma RankDetermines(u: seq<byte>, v: seq<byte>)
    requires IsFragment(u) && IsFragment(v) && Rank(u) == Rank(v)
    ensures u == v
  {
    hide Digit, Random.IsSymbol;
    var r, q := Digit(u[0]) * 36 + Digit(u[1]), Digit(v[0]) * 36 + Digit(v[1]);
    BaseDetermines(r * 36 + Digit(u[2]), Digit(u[3]), q * 36 + Digit(v[2]), Digit(v[3]));
    BaseDetermines(r, Digit(u[2]), q, Digit(v[2]));
    BaseDetermines(Digit(u[0]), Digit(u[1]), Digit(v[0]), Digit(v[1]));
    forall i | 0 <= i < 4
      ensures u[i] == v[i]
    {
      DigitDetermines(u[i], v[i]);
    }
  }

  lemma BaseDetermines(a: int, d: int, b: int, e: int)
    requires a * 36 + d == b * 36 + e && 0 <= d < 36 && 0 <= e < 36
    ensures a == b && d == e
  {
  }

  /** A set of fragments whose ranks are below `n` has at most `n` members. */
  lemma {:induction false} AtMost(keys: set<seq<byte>>, n: nat)
    requires forall k :: k in keys ==> IsFragment(k) && Rank(k) < n
    ensures |keys| <= n
  {
    hide Rank, IsFragment;
    if n == 0 {
      assert keys == {};
    } else if k :| k in keys && Rank(k) == n - 1 {
      forall j | j in keys - {k}
        ensures Rank(j) < n - 1
      {
        if Rank(j) == n - 1 {
          RankDetermines(j, k);
        }
      }
      AtMost(keys - {k}, n - 1);
    } else {
      AtMost(keys, n - 1);
    }
  }

  lemma DrawnIsFragment(f: Factory)
    requires f.Valid()
    ensures IsFragment(f.NextFragment())
  {
    hide Random.Symbols, Random.Iterate, Random.IsSymbol;
    Random.SymbolsInAlphabet(if f.fragmentFirst then f.seed else Random.IterateBound(f.seed, 24), 4);
  }

  /** However many sessions are created, the table never holds more than there are fragments. */
  lemma TableBounded(f: Factory, n: nat)
    requires f.Valid() && f.sessions == map[]
    ensures |After(f, n).sessions| <= FRAGMENTS
  {
    hide Rank, IsFragment, After;
    var t := After(f, n).sessions;
    forall k | k in t.Keys
      ensures IsFragment(k)
    {
      KeysAreDrawn(f, n, k);
      var j :| 0 <= j < n && Fragment(f, j) == k;
      DrawnIsFragment(After(f, j));
    }
    AtMost(t.Keys, FRAGMENTS);
  }

  lemma GrowsUnlessTaken(f: Factory, n: nat)
    requires f.Valid()
    ensures |After(f, n + 1).sessions| == |After(f, n).sessions| + if Taken(f, n) then 0 else 1
  {
    OneCreation(f, n);
    hide After, Fragment;
  }

  lemma {:induction false} FindTaken(f: Factory, n: nat) returns (i: nat)
    requires f.Valid() && |After(f, n).sessions| < n
    ensures i < n && Taken(f, i)
  {
    hide *;
    GrowsUnlessTaken(f, n - 1);
    if Taken(f, n - 1) {
      i := n - 1;
    } else {
      i := FindTaken(f, n - 1);
    }
  }

  /** From every seed, one of the first 36^4 + 1 sessions is never returned for any key. */
  lemma SomeSessionUnreachable(f: Factory) returns (i: nat)
    requires f.Valid() && f.sessions == map[]
    ensures i <= FRAGMENTS && forall n :: i < n ==> !Reachable(f, i, n)
  {
    hide Reachable, Taken, After;
    TableBounded(f, FRAGMENTS + 1);
    i := FindTaken(f, FRAGMENTS + 1);
    forall n | i < n
      ensures !Reachable(f, i, n)
    {
      ReachableIffFree(f, i, n);
    }
  }
}
