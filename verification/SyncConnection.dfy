/** Synchronous connections: reconnecting in place, and the recovery cache. */
module SyncConnections {
  import opened BsonFormat
  import opened Addresses
  import opened Failover

  /** The objects */

  // What a cache holds.
  datatype Cached = Cached(seeds: seq<string>, hosts: seq<string>, primary: Option<string>, auth: Credentials)

  const NOTHING := Cached([], [], None, NO_CREDENTIALS)

  // What a disconnect puts into the cache.
  function Saved(s: Conn): Cached { Cached(s.seeds, s.hosts, s.primary, s.auth) }

  // A new connection to a, with what the cache holds.
  function Loaded(a: Address, slaveok: bool, cs: Cached): Conn {
    Fresh(a, slaveok).(seeds := cs.seeds, hosts := cs.hosts, primary := cs.primary, auth := cs.auth)
  }

  // Where mongo_sync_connect_recovery_cache looks.
  function CacheCandidates(cs: Cached): seq<string> {
    (if cs.primary.Some? then [cs.primary.value] else []) + cs.seeds + cs.hosts
  }

  // The connection to a comes to its end: unless slaves are acceptable it is followed by an
  // unforced reconnect.
  predicate Opens(t: Topology, a: Address, slaveok: bool, cs: Cached) {
    slaveok || Ends(t, Loaded(a, slaveok, cs), false)
  }

  // The connection that a cache gives, once a is the first to answer.
  function Opened(t: Topology, a: Address, slaveok: bool, cs: Cached): (r: Conn)
    requires Opens(t, a, slaveok, cs)
    ensures r.seeds == cs.seeds && r.auth == cs.auth && r.slaveok == slaveok
  {
    if slaveok then Loaded(a, slaveok, cs) else Reconnected(t, Loaded(a, slaveok, cs), false)
  }

  // The reconnect of a connection from a cache ends, and succeeds because the cache still has the
  // address that has just answered.
  lemma {:induction false} OpenedIs(t: Topology, addr: string, a: Address, slaveok: bool, cs: Cached)
    requires Parse(addr) == Some(a) && a in t && addr in CacheCandidates(cs) && Opens(t, a, slaveok, cs)
    ensures slaveok ==> Opened(t, a, slaveok, cs) == Loaded(a, slaveok, cs)
    ensures !slaveok ==>
              var o := Within(t, Loaded(a, slaveok, cs), false, |t| + 1);
              o.Finished? && o.result == Some(Opened(t, a, slaveok, cs))
  {
    if !slaveok {
      hide Within, Parse, Ends, FirstAnswering, Settled;
      var s := Loaded(a, slaveok, cs);
      ReconnectEnds(t, s, false, 0);
      ReconnectLands(t, s, false, |t| + 1);
      if !Settled(t, s, false) {
        Unsettled(t, s);
        var all := Candidates(s);
        assert addr in all;
        var i :| 0 <= i < |all| && all[i] == addr;
        assert SomeAnswers(t, all);
      }
    }
  }

  // A connection that insists on a ping gets one, unless a node leads nowhere.  If the first node
  // that can be reached answers, it stays there and knows what the cache knew.
  lemma {:induction false} OpenedPings(t: Topology, a: Address, cs: Cached)
    requires FirstAnswering(t, CacheCandidates(cs)) == Some(a) && Opens(t, a, false, cs)
    ensures var r := Opened(t, a, false, cs);
            && (NoDeadEnd(t) ==> r.alive && r.node in t && !t[r.node].Silent?)
            && (!t[a].Silent? ==> r.node == a && r.alive && r.hosts == cs.hosts && r.primary == cs.primary)
  {
    hide FirstAnswering, CacheCandidates, Within, NoDeadEnd, Parse, Ends, Opens, Opened;
    FirstAnsweringIsFirst(t, CacheCandidates(cs));
    var i :| 0 <= i < |CacheCandidates(cs)| && Parse(CacheCandidates(cs)[i]) == Some(a);
    OpenedIs(t, CacheCandidates(cs)[i], a, false, cs);
    ReconnectLands(t, Loaded(a, false, cs), false, |t| + 1);
    WithinUnfold(t, Loaded(a, false, cs), false, |t| + 1);
  }

  lemma Unsettled(t: Topology, s: Conn)
    requires !Settled(t, s, false)
    ensures Refreshed(t, s) == s
  {
  }

  class RecoveryCache {
    var seeds: seq<string>
    var hosts: seq<string>
    var primary: Option<string>
    var auth: Credentials

    ghost function State(): Cached
      reads this
    {
      Cached(seeds, hosts, primary, auth)
    }

    constructor ()
      ensures State() == NOTHING
    {
      seeds, hosts, primary, auth := [], [], None, NO_CREDENTIALS;
    }

    method SeedAdd(host: string, port: int)
      modifies this`seeds
      ensures State() == old(State()).(seeds := old(seeds) + [Print(host, port)])
    {
      seeds := seeds + [Print(host, port)];
    }

    method Discard()
      modifies this
      ensures State() == NOTHING
      ensures seeds == [] && hosts == [] && primary == None && auth == Credentials(None, None, None)
    {
      auth := NO_CREDENTIALS;
      primary, hosts, seeds := None, [], [];
    }
  }

  class Connection {
    var node: Address
    var alive: bool
    var requestId: int
    var slaveok: bool
    var safeMode: bool
    var autoReconnect: bool
    var maxInsertSize: int
    var seeds: seq<string>
    var hosts: seq<string>
    var primary: Option<string>
    var auth: Credentials
    var recoveryCache: RecoveryCache?

    ghost function State(): Conn
      reads this
    {
      Conn(node, alive, requestId, slaveok, safeMode, autoReconnect, maxInsertSize, seeds, hosts, primary, auth)
    }

    constructor (a: Address, slaveok: bool)
      ensures State() == Fresh(a, slaveok).(seeds := []) && recoveryCache == null
      ensures node == a && alive && this.slaveok == slaveok && !safeMode && !autoReconnect
      ensures requestId == 0 && maxInsertSize == 4_000_000
    {
      node, alive, requestId := a, true, 0;
      this.slaveok, safeMode, autoReconnect, maxInsertSize := slaveok, false, false, 4 * 1000 * 1000;
      seeds, hosts, primary, auth, recoveryCache := [], [], None, NO_CREDENTIALS, null;
    }

    // _recovery_cache_connect.
    static method ConnectVia(t: Topology, cache: RecoveryCache?, a: Address, slaveok: bool) returns (c: Connection?)
      ensures c != null <==> a in t
      ensures c != null ==>
                && fresh(c) && c.recoveryCache == cache
                && c.State() == if cache == null then Fresh(a, slaveok) else Loaded(a, slaveok, cache.State())
      ensures c != null ==> c.node == a && c.alive && c.slaveok == slaveok
      ensures c != null && cache == null ==>
                c.seeds == [Print(a.host, a.port)] && c.hosts == [] && c.primary == None && c.auth == NO_CREDENTIALS
      ensures c != null && cache != null ==>
                && c.seeds == cache.seeds && c.hosts == cache.hosts
                && c.primary == cache.primary && c.auth == cache.auth
    {
      if a !in t { return null; }
      c := new Connection(a, slaveok);
      if cache == null {
        c.seeds := c.seeds + [Print(a.host, a.port)];
      } else {
        c.Load(cache);
      }
    }

    // _recovery_cache_load.
    method Load(cache: RecoveryCache)
      modifies this
      ensures State() == old(State()).(seeds := cache.seeds, hosts := cache.hosts, primary := cache.primary,
                                       auth := cache.auth)
      ensures recoveryCache == cache
    {
      seeds, hosts, primary := cache.seeds, cache.hosts, cache.primary;
      auth := cache.auth;
      recoveryCache := cache;
    }

    method SeedAdd(host: string, port: int) returns (ok: bool)
      modifies this`seeds
      ensures ok == (port >= 0) && seeds == old(seeds) + if ok then [Print(host, port)] else []
    {
      if port < 0 { return false; }
      seeds := seeds + [Print(host, port)];
      return true;
    }

    method Ping(t: Topology) returns (ok: bool)
      ensures ok == Works(t, State())
    {
      return alive && node in t && !t[node].Silent?;
    }

    method IsMaster(t: Topology) returns (yes: bool)
      modifies this`primary, this`hosts
      ensures State() == Refreshed(t, old(State())) && yes == OnMaster(t, old(State()))
      // Field by field.
      ensures alive && node in t && t[node].Reply? ==>
                && yes == t[node].isMaster
                && primary == (if !t[node].isMaster && t[node].primary.Some? then t[node].primary else old(primary))
                && hosts == if t[node].hosts.Some? then t[node].hosts.value + t[node].passives else old(hosts)
      ensures !(alive && node in t && t[node].Reply?) ==> !yes && primary == old(primary) && hosts == old(hosts)
    {
      if !alive || node !in t { return false; }
      var r := t[node];
      if r.Silent? || r.Garbled? { return false; }
      if !r.isMaster && r.primary.Some? { primary := r.primary; }
      if r.hosts.Some? {
        hosts := [];
        hosts := hosts + r.hosts.value;
        hosts := hosts + r.passives;
      }
      return r.isMaster;
    }

    // _mongo_sync_connect_replace; nothing happens without a new connection.
    method Replace(n: Connection?)
      requires n != this
      modifies this
      ensures State() == if n == null then old(State()) else Replaced(old(State()), n.State())
      ensures recoveryCache == old(recoveryCache)
      ensures n != null ==>
                && node == n.node && alive == n.alive && slaveok == n.slaveok
                && primary == None && hosts == [] && requestId == -1
                && seeds == old(seeds) && auth == old(auth) && safeMode == old(safeMode)
                && autoReconnect == old(autoReconnect) && maxInsertSize == old(maxInsertSize)
    {
      if n == null { return; }
      primary := None;
      hosts := [];
      node, alive := n.node, n.alive;
      requestId := -1;
      slaveok := n.slaveok;
    }

    // Connects to the first address of the list that answers.
    static method ConnectFirst(t: Topology, addrs: seq<string>, slaveok: bool) returns (c: Connection?)
      ensures var a := FirstAnswering(t, addrs);
              && (c == null <==> a.None?)
              && (c != null ==> fresh(c) && c.State() == Fresh(a.value, slaveok) && c.recoveryCache == null)
      ensures c == null <==> forall a | a in addrs :: Unreachable(t, a)
      ensures c != null ==> FirstReached(t, addrs, c.node)
    {
      hide Parse, FirstReached, Unreachable;
      FirstAnsweringIsFirst(t, addrs);
      if FirstAnswering(t, addrs).Some? { FirstReachedIn(t, addrs, FirstAnswering(t, addrs).value); }
      c := null;
      for i := 0 to |addrs|
        invariant c == null && FirstAnswering(t, addrs) == FirstAnswering(t, addrs[i..])
      {
        assert addrs[i..][0] == addrs[i] && addrs[i..][1..] == addrs[i + 1..];
        var ok, host, port := ParseAddr(addrs[i]);
        if ok {
          c := ConnectVia(t, null, Address(host.value, port), slaveok);
          if c != null { return; }
        }
      }
    }

    // The three searches of a reconnect: primary, hosts, seeds.
    method ConnectCandidate(t: Topology) returns (n: Connection?)
      ensures var a := FirstAnswering(t, Candidates(State()));
              && (n == null <==> a.None?)
              && (n != null ==> fresh(n) && n.State() == Fresh(a.value, slaveok) && n.recoveryCache == null)
      ensures var first := primary.Some? && !Unreachable(t, primary.value);
              var second := exists a | a in hosts :: !Unreachable(t, a);
              && (first ==> n != null && Parse(primary.value) == Some(n.node))
              && (!first && second ==> n != null && FirstReached(t, hosts, n.node))
              && (!first && !second && n != null ==> FirstReached(t, seeds, n.node))
              && (!first && !second && n == null ==> forall a | a in seeds :: Unreachable(t, a))
    {
      hide Parse, FirstAnswering;
      var first := if primary.Some? then [primary.value] else [];
      FirstAnsweringConcat(t, first + hosts, seeds);
      FirstAnsweringConcat(t, first, hosts);
      n := ConnectFirst(t, first, slaveok);
      if n == null { n := ConnectFirst(t, hosts, slaveok); }
      if n == null { n := ConnectFirst(t, seeds, slaveok); }
    }

    // Whether the connection can stay as it is: it answers, and it is on the master if need be.
    method GoodEnough(t: Topology, forceMaster: bool) returns (yes: bool)
      modifies this`primary, this`hosts
      ensures var s := old(State());
              && yes == Settled(t, s, forceMaster)
              && State() == if yes && !forceMaster then s else Refreshed(t, s)
      ensures yes <==> && alive && node in t && !t[node].Silent?
                       && (forceMaster ==> t[node].Reply? && t[node].isMaster)
    {
      hide Refreshed;
      RefreshTwice(t, State());
      var ping := Ping(t);
      if ping {
        if !forceMaster { return true; }
        yes := IsMaster(t);
        if yes { return true; }
        // Asked once more, to refresh the list of hosts.
        var again := IsMaster(t);
      }
      return false;
    }

    // mongo_sync_reconnect, where it ends within n nested calls.
    method Reconnect(t: Topology, forceMaster: bool, ghost n: nat) returns (ok: bool)
      requires Within(t, State(), forceMaster, n).Finished?
      modifies this
      ensures var r := Within(t, old(State()), forceMaster, n).result;
              ok == r.Some? && State() == if ok then r.value else Refreshed(t, old(State()))
      ensures recoveryCache == old(recoveryCache)
      decreases n
    {
      hide Within, FirstAnswering, Candidates, Refreshed, Replaced, Fresh, Works, Settled, Kept;
      ghost var s := State();
      if n == 0 { NoCalls(t, s, forceMaster); }
      WithinUnfold(t, s, forceMaster, n);
      var done := GoodEnough(t, forceMaster);
      if done { return true; }
      var c := ConnectCandidate(t);
      if c == null { return false; }
      var again := c.Reconnect(t, forceMaster, n - 1);
      Replace(if again then c else null);
      return true;
    }

    // mongo_sync_disconnect: a cache takes over the replica set and the credentials.
    method Disconnect()
      modifies this, recoveryCache
      ensures var c := old(recoveryCache); c != null ==> c.State() == Saved(old(State()))
      ensures var c := old(recoveryCache);
              c != null ==>
                c.seeds == old(seeds) && c.hosts == old(hosts) && c.primary == old(primary) && c.auth == old(auth)
      ensures auth == NO_CREDENTIALS && seeds == [] && hosts == [] && primary == None
    {
      if recoveryCache != null { Store(recoveryCache); }
      auth, seeds, hosts, primary := NO_CREDENTIALS, [], [], None;
    }

    // _recovery_cache_store: each of the three credentials moves on its own.
    method Store(cache: RecoveryCache)
      modifies this`auth, cache
      ensures cache.State() == Saved(old(State())) && auth == NO_CREDENTIALS
      ensures cache.seeds == old(seeds) && cache.hosts == old(hosts) && cache.primary == old(primary)
      ensures cache.auth == old(auth)
    {
      cache.Discard();
      cache.seeds, cache.hosts, cache.primary := seeds, hosts, primary;
      if auth.db.Some? {
        cache.auth := cache.auth.(db := auth.db);
        auth := auth.(db := None);
      }
      if auth.user.Some? {
        cache.auth := cache.auth.(user := auth.user);
        auth := auth.(user := None);
      }
      if auth.pw.Some? {
        cache.auth := cache.auth.(pw := auth.pw);
        auth := auth.(pw := None);
      }
    }

    // _recovery_cache_pick_connect_from_list, and with a list of one the attempt on the primary.
    static method PickFromList(t: Topology, cache: RecoveryCache, addrs: seq<string>, slaveok: bool)
      returns (c: Connection?)
      requires forall a | a in addrs :: a in CacheCandidates(cache.State())
      requires var a := FirstAnswering(t, addrs); a.Some? ==> Opens(t, a.value, slaveok, cache.State())
      modifies cache
      ensures var a := FirstAnswering(t, addrs);
              && (c == null <==> a.None?)
              && (c != null ==>
                    && fresh(c) && c.recoveryCache == cache
                    && c.State() == Opened(t, a.value, slaveok, old(cache.State())))
      ensures cache.State() == if c == null || slaveok then old(cache.State()) else NOTHING
    {
      hide Parse, Opened, Opens, Loaded, CacheCandidates, Candidates, Reconnected;
      c := null;
      for i := 0 to |addrs|
        invariant c == null && FirstAnswering(t, addrs) == FirstAnswering(t, addrs[i..])
        invariant cache.State() == old(cache.State())
      {
        assert addrs[i..][0] == addrs[i] && addrs[i..][1..] == addrs[i + 1..];
        var ok, host, port := ParseAddr(addrs[i]);
        if ok {
          ghost var cs := cache.State();
          c := ConnectVia(t, cache, Address(host.value, port), slaveok);
          if c != null {
            OpenedIs(t, addrs[i], Address(host.value, port), slaveok, cs);
            if slaveok { return; }
            c.recoveryCache.Discard();
            var back := c.Reconnect(t, false, |t| + 1);
            if !back { c := null; }
            return;
          }
        }
      }
    }

    // mongo_sync_connect_recovery_cache: the primary, then the seeds, then the hosts.
    static method ConnectRecoveryCache(t: Topology, cache: RecoveryCache, slaveok: bool) returns (c: Connection?)
      requires var a := FirstAnswering(t, CacheCandidates(cache.State()));
               a.Some? ==> Opens(t, a.value, slaveok, cache.State())
      modifies cache
      ensures var a := FirstAnswering(t, CacheCandidates(old(cache.State())));
              && (c == null <==> a.None?)
              && (c != null ==>
                    && fresh(c) && c.recoveryCache == cache
                    && c.State() == Opened(t, a.value, slaveok, old(cache.State())))
      ensures cache.State() == if c == null || slaveok then old(cache.State()) else NOTHING
      ensures c != null ==> c.seeds == old(cache.seeds) && c.auth == old(cache.auth) && c.slaveok == slaveok
      // For slaves: to the primary, else to the first seed, else to the first host that answers.
      ensures slaveok ==>
                var first := old(cache.primary).Some? && !Unreachable(t, old(cache.primary).value);
                var second := exists a | a in old(cache.seeds) :: !Unreachable(t, a);
                && (first ==> c != null && Parse(old(cache.primary).value) == Some(c.node))
                && (!first && second ==> c != null && FirstReached(t, old(cache.seeds), c.node))
                && (!first && !second && c != null ==> FirstReached(t, old(cache.hosts), c.node))
                && (c != null ==> c.alive && c.hosts == old(cache.hosts) && c.primary == old(cache.primary))
      // Otherwise to a node that answers a ping.
      ensures !slaveok && c != null && NoDeadEnd(t) ==> c.alive && c.node in t && !t[c.node].Silent?
    {
      hide FirstAnswering, Opens, Parse, FirstReached, Unreachable, NoDeadEnd;
      CacheOrder(t, cache.State());
      var a := FirstAnswering(t, CacheCandidates(cache.State()));
      if !slaveok && a.Some? { OpenedPings(t, a.value, cache.State()); }
      var first := if cache.primary.Some? then [cache.primary.value] else [];
      var seeds, hosts := cache.seeds, cache.hosts;
      FirstAnsweringConcat(t, first, seeds);
      FirstAnsweringConcat(t, first + seeds, hosts);
      c := PickFromList(t, cache, first, slaveok);
      if c != null { return; }
      c := PickFromList(t, cache, seeds, slaveok);
      if c != null { return; }
      c := PickFromList(t, cache, hosts, slaveok);
    }
  }

  // Where the first answering address of a cache comes from.
  lemma {:induction false} CacheOrder(t: Topology, cs: Cached)
    ensures var a := FirstAnswering(t, CacheCandidates(cs));
            var first := cs.primary.Some? && !Unreachable(t, cs.primary.value);
            var second := exists a | a in cs.seeds :: !Unreachable(t, a);
            && (first ==> a.Some? && Parse(cs.primary.value) == a)
            && (!first && second ==> a.Some? && FirstReached(t, cs.seeds, a.value))
            && (!first && !second && a.Some? ==> FirstReached(t, cs.hosts, a.value))
  {
    hide FirstAnswering, Parse, FirstReached;
    var first := if cs.primary.Some? then [cs.primary.value] else [];
    FirstAnsweringConcat(t, first, cs.seeds);
    FirstAnsweringConcat(t, first + cs.seeds, cs.hosts);
    FirstAnsweringIsFirst(t, first);
    FirstAnsweringIsFirst(t, cs.seeds);
    FirstAnsweringIsFirst(t, cs.hosts);
    var a := FirstAnswering(t, first);
    if a.Some? { OnlyOne(t, first, a.value); }
    var b := FirstAnswering(t, cs.seeds);
    if b.Some? { FirstReachedIn(t, cs.seeds, b.value); }
  }

  lemma OnlyOne(t: Topology, addrs: seq<string>, a: Address)
    requires |addrs| <= 1 && FirstReached(t, addrs, a)
    ensures |addrs| == 1 && Parse(addrs[0]) == Some(a)
  {
    hide Parse;
  }

  lemma FirstReachedIn(t: Topology, addrs: seq<string>, a: Address)
    requires FirstReached(t, addrs, a)
    ensures exists addr | addr in addrs :: !Unreachable(t, addr)
  {
    hide Parse;
    var i :| 0 <= i < |addrs| && Parse(addrs[i]) == Some(a);
    assert addrs[i] in addrs && !Unreachable(t, addrs[i]);
  }

  lemma RefreshTwice(t: Topology, s: Conn)
    ensures Refreshed(t, Refreshed(t, s)) == Refreshed(t, s)
  {
  }

  /** Sessions */

  // What can happen during a session: the servers change, and with a node that goes the sockets
  // to it are lost, the client asks who is master or reconnects, the connection breaks.
  datatype Activity = Change(t: Topology) | Refresh | Failover(forceMaster: bool) | Break

  datatype World = World(t: Topology, s: Conn)

  // None is a reconnect that does not end.
  function Act(w: World, a: Activity): Option<World> {
    match a
    case Change(t) => Some(World(t, w.s.(alive := w.s.alive && w.s.node in t)))
    case Break => Some(World(w.t, w.s.(alive := false)))
    case Refresh => Some(World(w.t, Refreshed(w.t, w.s)))
    case Failover(force) =>
      if !Ends(w.t, w.s, force) then None else Some(World(w.t, Reconnected(w.t, w.s, force)))
  }

  // A break or the loss of the node is noticed, and with a master that every node names a forced
  // reconnect brings the client there if anybody answers.
  lemma ActivitiesMean(w: World, t: Topology, master: Address)
    ensures Act(w, Break) == Some(World(w.t, w.s.(alive := false)))
    ensures Act(w, Change(t)) == Some(World(t, w.s.(alive := w.s.alive && w.s.node in t)))
    ensures Fixed(w.t, master) && (Works(w.t, w.s) || SomeAnswers(w.t, Candidates(w.s))) ==>
              var r := Act(w, Failover(true));
              && r.Some? && r.value.t == w.t && r.value.s.alive && r.value.s.node == master && Kept(w.s, r.value.s)
  {
    hide Within, Candidates, SomeAnswers, Ends, Fixed;
    if Fixed(w.t, master) {
      FixedEnds(w.t, master, w.s, true);
      ReconnectReachesMaster(w.t, master, w.s);
      ReconnectEnds(w.t, w.s, true, 3);
      MoreCalls(w.t, w.s, true, if 3 <= |w.t| + 1 then 3 else |w.t| + 1, if 3 <= |w.t| + 1 then |w.t| + 1 else 3);
    }
  }

  function ActAll(w: World, script: seq<Activity>): Option<World>
    decreases |script|
  {
    if script == [] then Some(w)
    else
      var next := Act(w, script[0]);
      if next.None? then None else ActAll(next.value, script[1..])
  }

  // Connect from the cache, any activity, disconnect.
  datatype Session = Session(t: Topology, slaveok: bool, script: seq<Activity>)

  // What the cache holds after a session.
  function AfterSession(cs: Cached, session: Session): Option<Cached> {
    var a := FirstAnswering(session.t, CacheCandidates(cs));
    if a.None? then Some(cs)
    else if !Opens(session.t, a.value, session.slaveok, cs) then None
    else
      var w := ActAll(World(session.t, Opened(session.t, a.value, session.slaveok, cs)), session.script);
      if w.None? then None else Some(Saved(w.value.s))
  }

  function AfterSessions(cs: Cached, plan: seq<Session>): Option<Cached>
    decreases |plan|
  {
    if plan == [] then Some(cs)
    else
      var next := AfterSession(cs, plan[0]);
      if next.None? then None else AfterSessions(next.value, plan[1..])
  }

  lemma {:induction false} ActivityKeeps(w: World, script: seq<Activity>)
    ensures var r := ActAll(w, script); r.Some? ==> Kept(w.s, r.value.s)
    decreases |script|
  {
    hide Reconnected, Refreshed, Ends;
    if script != [] {
      var next := Act(w, script[0]);
      if next.Some? { ActivityKeeps(next.value, script[1..]); }
    }
  }

  // Across any number of sessions, on topologies that differ and change, the cache keeps its
  // seeds and its credentials, whether slaves are acceptable or not and whether the sessions
  // connect or not.
  lemma {:induction false} SessionsConserve(cs: Cached, plan: seq<Session>)
    ensures var r := AfterSessions(cs, plan); r.Some? ==> r.value.seeds == cs.seeds && r.value.auth == cs.auth
    decreases |plan|
  {
    hide ActAll, FirstAnswering, CacheCandidates;
    if plan != [] {
      var s := plan[0];
      var a := FirstAnswering(s.t, CacheCandidates(cs));
      if a.Some? && Opens(s.t, a.value, s.slaveok, cs) {
        ActivityKeeps(World(s.t, Opened(s.t, a.value, s.slaveok, cs)), s.script);
      }
      var next := AfterSession(cs, s);
      if next.Some? { SessionsConserve(next.value, plan[1..]); }
    }
  }

  // A session in which nothing happens leaves the cache as it was, and one that asks who is master
  // leaves the hosts it was told there.
  lemma {:induction false} QuietSession(cs: Cached, t: Topology, slaveok: bool, a: Address)
    requires FirstAnswering(t, CacheCandidates(cs)) == Some(a) && Pings(t, a)
    ensures AfterSession(cs, Session(t, slaveok, [])) == Some(cs)
    ensures t[a].Reply? && t[a].hosts.Some? ==>
              var r := AfterSession(cs, Session(t, slaveok, [Refresh]));
              && r.Some? && r.value.hosts == t[a].hosts.value + t[a].passives
              && (t[a].isMaster ==> r.value.primary == cs.primary)
              && (!t[a].isMaster && t[a].primary.Some? ==> r.value.primary == t[a].primary)
              && r.value.seeds == cs.seeds && r.value.auth == cs.auth
  {
    hide FirstAnswering, CacheCandidates, Within, Print;
    var s := Loaded(a, slaveok, cs);
    WithinUnfold(t, s, false, |t| + 1);
    assert Opened(t, a, slaveok, cs) == s;
    var w := World(t, s);
    assert ActAll(w, []) == Some(w);
    assert [Refresh][1..] == [];
    assert ActAll(w, [Refresh]) == ActAll(World(t, Refreshed(t, s)), []);
  }

  ghost predicate HasMaster(t: Topology) { exists master :: Fixed(t, master) }

  ghost predicate AlwaysMaster(t: Topology, script: seq<Activity>) {
    HasMaster(t) && forall a | a in script :: a.Change? ==> HasMaster(a.t)
  }

  lemma {:induction false} ScriptEnds(w: World, script: seq<Activity>)
    requires AlwaysMaster(w.t, script)
    ensures ActAll(w, script).Some?
    decreases |script|
  {
    hide Reconnected, Refreshed, Ends, Fixed;
    if script != [] {
      var master :| Fixed(w.t, master);
      FixedEnds(w.t, master, w.s, true);
      FixedEnds(w.t, master, w.s, false);
      var next := Act(w, script[0]).value;
      assert script[0] in script && forall a | a in script[1..] :: a in script;
      ScriptEnds(next, script[1..]);
    }
  }

  lemma AlwaysOpens(t: Topology, a: Address, slaveok: bool, cs: Cached, script: seq<Activity>)
    requires AlwaysMaster(t, script)
    ensures Opens(t, a, slaveok, cs)
  {
    hide Ends, Fixed;
    var master :| Fixed(t, master);
    FixedEnds(t, master, Loaded(a, slaveok, cs), false);
  }

  // As long as there is a master that the other nodes name, from one change of the servers to
  // the next, all sessions come to their end.
  lemma {:induction false} SessionsEnd(cs: Cached, plan: seq<Session>)
    requires forall s | s in plan :: AlwaysMaster(s.t, s.script)
    ensures AfterSessions(cs, plan).Some?
    decreases |plan|
  {
    hide ActAll, FirstAnswering, CacheCandidates, AlwaysMaster;
    if plan != [] {
      var s := plan[0];
      assert s in plan && forall x | x in plan[1..] :: x in plan;
      var a := FirstAnswering(s.t, CacheCandidates(cs));
      if a.Some? {
        AlwaysOpens(s.t, a.value, s.slaveok, cs, s.script);
        ScriptEnds(World(s.t, Opened(s.t, a.value, s.slaveok, cs)), s.script);
      }
      SessionsEnd(AfterSession(cs, s).value, plan[1..]);
    }
  }

  // One session with the objects, where its reconnects end.
  method RunSession(session: Session, cache: RecoveryCache)
    requires AfterSession(cache.State(), session).Some?
    modifies cache
    ensures cache.State() == AfterSession(old(cache.State()), session).value
  {
    hide FirstAnswering, CacheCandidates, ActAll;
    var c := Connection.ConnectRecoveryCache(session.t, cache, session.slaveok);
    if c == null { return; }
    RunScript(c, session.t, session.script);
    c.Disconnect();
  }

  method RunScript(c: Connection, topology: Topology, script: seq<Activity>)
    requires ActAll(World(topology, c.State()), script).Some?
    modifies c
    ensures ActAll(World(topology, old(c.State())), script).value.s == c.State()
    ensures c.recoveryCache == old(c.recoveryCache)
  {
    hide Refreshed, Ends;
    var t := topology;
    ghost var w := World(t, c.State());
    for i := 0 to |script|
      invariant c.recoveryCache == old(c.recoveryCache)
      invariant ActAll(w, script).Some?
      invariant ActAll(w, script) == ActAll(World(t, c.State()), script[i..])
    {
      assert script[i..][0] == script[i] && script[i..][1..] == script[i + 1..];
      match script[i] {
        case Change(next) =>
          t := next;
          c.alive := c.alive && c.node in t;
        case Break => c.alive := false;
        case Refresh => var _ := c.IsMaster(t);
        case Failover(force) =>
          ReconnectEnds(t, c.State(), force, 0);
          var _ := c.Reconnect(t, force, |t| + 1);
      }
    }
  }

  // The objects leave in the cache what the sessions do.
  method RunSessions(plan: seq<Session>, cache: RecoveryCache)
    requires AfterSessions(cache.State(), plan).Some?
    modifies cache
    ensures cache.State() == AfterSessions(old(cache.State()), plan).value
  {
    hide AfterSession;
    ghost var cs := cache.State();
    for i := 0 to |plan|
      invariant AfterSessions(cs, plan) == AfterSessions(cache.State(), plan[i..])
    {
      assert plan[i..][0] == plan[i] && plan[i..][1..] == plan[i + 1..];
      RunSession(plan[i], cache);
    }
  }
}
