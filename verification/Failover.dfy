/** Failover on values: topologies, the search of mongo_sync_reconnect, and when it ends. */
module Failover {
  import opened BsonFormat
  import opened Addresses

  /** The servers */

  // What a node answers to "ismaster".  Silent nodes accept a connection and answer nothing, not
  // even a ping; Garbled is a reply without a boolean "ismaster".
  datatype Reply =
    | Silent
    | Garbled
    | Reply(isMaster: bool, primary: Option<string>, hosts: Option<seq<string>>, passives: seq<string>)

  // The nodes that can be connected to.
  type Topology = map<Address, Reply>

  predicate Pings(t: Topology, a: Address) { a in t && !t[a].Silent? }

  predicate Masters(t: Topology, a: Address) { a in t && t[a].Reply? && t[a].isMaster }

  // What a reconnect looks for: any node that answers a ping, or a master.
  predicate Suits(t: Topology, a: Address, forceMaster: bool) {
    Pings(t, a) && (forceMaster ==> Masters(t, a))
  }

  // One node is the master and every other one names it.
  predicate Fixed(t: Topology, master: Address) {
    && Masters(t, master)
    && forall a | a in t && a != master ::
         && t[a].Reply? && !t[a].isMaster
         && t[a].primary.Some? && Parse(t[a].primary.value) == Some(master)
  }

  predicate Printable(a: Address) { a.host != "" && a.host[0] != '[' && -1 <= a.port <= INT_MAX }

  /** The state of a connection, and what the calls do to it. */

  datatype Credentials = Credentials(db: Option<string>, user: Option<string>, pw: Option<string>)

  const NO_CREDENTIALS := Credentials(None, None, None)

  datatype Conn = Conn(
    node: Address, alive: bool, requestId: int,
    slaveok: bool, safeMode: bool, autoReconnect: bool, maxInsertSize: int,
    seeds: seq<string>, hosts: seq<string>, primary: Option<string>, auth: Credentials)

  // Whether a ping is answered.
  predicate Works(t: Topology, s: Conn) { s.alive && Pings(t, s.node) }

  predicate OnMaster(t: Topology, s: Conn) { s.alive && Masters(t, s.node) }

  // A reconnect leaves the connection where it is.
  predicate Settled(t: Topology, s: Conn, forceMaster: bool) { s.alive && Suits(t, s.node, forceMaster) }

  // mongo_sync_connect to an address that answers.
  function Fresh(a: Address, slaveok: bool): Conn {
    Conn(a, true, 0, slaveok, false, false, 4 * 1000 * 1000, [Print(a.host, a.port)], [], None, NO_CREDENTIALS)
  }

  // What the client set up.
  predicate Kept(s: Conn, r: Conn) {
    && r.seeds == s.seeds && r.auth == s.auth
    && r.slaveok == s.slaveok && r.safeMode == s.safeMode && r.autoReconnect == s.autoReconnect
    && r.maxInsertSize == s.maxInsertSize
  }

  // mongo_sync_cmd_is_master refreshes the primary and the hosts.
  function Refreshed(t: Topology, s: Conn): (r: Conn)
    ensures Kept(s, r) && r.node == s.node && r.alive == s.alive
    ensures !Works(t, s) ==> r == s
  {
    if !Works(t, s) || t[s.node].Garbled? then s
    else
      var r := t[s.node];
      var s1 := if !r.isMaster && r.primary.Some? then s.(primary := r.primary) else s;
      if r.hosts.None? then s1 else s1.(hosts := r.hosts.value + r.passives)
  }

  predicate Unreachable(t: Topology, addr: string) { Parse(addr).Some? ==> Parse(addr).value !in t }

  // a is what the first reachable of the addresses stands for.
  ghost predicate FirstReached(t: Topology, addrs: seq<string>, a: Address) {
    && a in t
    && exists i | 0 <= i < |addrs| ::
         Parse(addrs[i]) == Some(a) && forall j | 0 <= j < i :: Unreachable(t, addrs[j])
  }

  // The first of the addresses that parses and answers.
  function FirstAnswering(t: Topology, addrs: seq<string>): (r: Option<Address>)
    ensures r.Some? ==> r.value in t && exists i | 0 <= i < |addrs| :: Parse(addrs[i]) == r
    ensures r.None? ==> forall i | 0 <= i < |addrs| :: Parse(addrs[i]).Some? ==> Parse(addrs[i]).value !in t
  {
    if addrs == [] then None
    else
      var p := Parse(addrs[0]);
      if p.Some? && p.value in t then p
      else
        var r := FirstAnswering(t, addrs[1..]);
        assert r.Some? ==> forall i | 0 <= i < |addrs| - 1 :: addrs[1..][i] == addrs[i + 1];
        r
  }

  lemma {:induction false} FirstAnsweringIsFirst(t: Topology, addrs: seq<string>)
    ensures FirstAnswering(t, addrs).Some? ==> FirstReached(t, addrs, FirstAnswering(t, addrs).value)
    ensures FirstAnswering(t, addrs).None? ==> forall a | a in addrs :: Unreachable(t, a)
  {
    hide Parse;
    if addrs != [] && Unreachable(t, addrs[0]) {
      var rest := addrs[1..];
      FirstAnsweringIsFirst(t, rest);
      var r := FirstAnswering(t, rest);
      assert FirstAnswering(t, addrs) == r;
      if r.Some? {
        var i :| 0 <= i < |rest| && Parse(rest[i]) == r && forall j | 0 <= j < i :: Unreachable(t, rest[j]);
        assert Parse(addrs[i + 1]) == r;
        assert forall j | 0 < j < i + 1 :: addrs[j] == rest[j - 1];
      }
    } else if addrs != [] {
      assert Parse(addrs[0]) == FirstAnswering(t, addrs);
    }
  }

  predicate SomeAnswers(t: Topology, addrs: seq<string>) {
    exists i | 0 <= i < |addrs| :: Parse(addrs[i]).Some? && Parse(addrs[i]).value in t
  }

  lemma FirstAnsweringExists(t: Topology, addrs: seq<string>)
    ensures FirstAnswering(t, addrs).Some? <==> SomeAnswers(t, addrs)
  {
  }

  lemma {:induction false} FirstAnsweringConcat(t: Topology, a: seq<string>, b: seq<string>)
    ensures FirstAnswering(t, a + b) == var r := FirstAnswering(t, a); if r.Some? then r else FirstAnswering(t, b)
  {
    if a == [] {
      assert a + b == b;
    } else {
      assert (a + b)[1..] == a[1..] + b;
      FirstAnsweringConcat(t, a[1..], b);
    }
  }

  // Where a reconnect looks: the primary, the hosts, the seeds, in this order.
  function Candidates(s: Conn): seq<string> {
    (if s.primary.Some? then [s.primary.value] else []) + s.hosts + s.seeds
  }

  // _mongo_sync_connect_replace: the old connection takes over the socket of the new one.
  function Replaced(old_: Conn, new_: Conn): Conn {
    old_.(primary := None, hosts := [], node := new_.node, alive := new_.alive,
          requestId := -1, slaveok := new_.slaveok)
  }

  /** mongo_sync_reconnect */

  // The connection that a reconnect leaves behind, None where it returns NULL, or no end yet.
  datatype Outcome = Unfinished | Finished(result: Option<Conn>)

  // A reconnect that may nest n calls.
  function Within(t: Topology, s: Conn, forceMaster: bool, n: nat): Outcome
    decreases n
  {
    if n == 0 then Unfinished
    else if Settled(t, s, forceMaster) then Finished(Some(if forceMaster then Refreshed(t, s) else s))
    else
      var s1 := Refreshed(t, s);
      var a := FirstAnswering(t, Candidates(s1));
      if a.None? then Finished(None)
      else
        var o := Within(t, Fresh(a.value, s.slaveok), forceMaster, n - 1);
        if o.Unfinished? then Unfinished
        else Finished(Some(if o.result.None? then s1 else Replaced(s1, o.result.value)))
  }

  lemma {:induction false} WithinUnfold(t: Topology, s: Conn, forceMaster: bool, n: nat)
    requires n > 0
    ensures var s1, a := Refreshed(t, s), FirstAnswering(t, Candidates(Refreshed(t, s)));
            var o := if a.None? then Finished(None) else Within(t, Fresh(a.value, s.slaveok), forceMaster, n - 1);
            Within(t, s, forceMaster, n) ==
              if Settled(t, s, forceMaster) then Finished(Some(if forceMaster then s1 else s))
              else if a.None? || o.Unfinished? then o
              else if o.result.None? then Finished(Some(s1))
              else Finished(Some(Replaced(s1, o.result.value)))
  {
    hide FirstAnswering, Candidates, Refreshed, Replaced, Fresh, Settled;
  }

  lemma {:induction false} MoreCalls(t: Topology, s: Conn, forceMaster: bool, n: nat, m: nat)
    requires n <= m && Within(t, s, forceMaster, n).Finished?
    ensures Within(t, s, forceMaster, m) == Within(t, s, forceMaster, n)
    decreases n
  {
    hide Within, FirstAnswering, Candidates, Refreshed, Replaced, Fresh, Settled, Kept, Works;
    if n == 0 {
      NoCalls(t, s, forceMaster);
    } else {
      WithinUnfold(t, s, forceMaster, n);
      WithinUnfold(t, s, forceMaster, m);
      var a := FirstAnswering(t, Candidates(Refreshed(t, s)));
      if !Settled(t, s, forceMaster) && a.Some? {
        MoreCalls(t, Fresh(a.value, s.slaveok), forceMaster, n - 1, m - 1);
      }
    }
  }

  lemma NoCalls(t: Topology, s: Conn, forceMaster: bool)
    ensures Within(t, s, forceMaster, 0).Unfinished?
  {
  }

  /** When it ends */

  // Where a new connection to a node that does not suit goes next.
  function Next(t: Topology, a: Address): (r: Option<Address>)
    ensures r.Some? ==> r.value in t
  {
    FirstAnswering(t, Candidates(Refreshed(t, Fresh(a, false))))
  }

  // The walk from node to node comes to one that suits, or to one that leads nowhere, before it
  // comes to a node it has seen.
  predicate Arrives(t: Topology, a: Address, forceMaster: bool, seen: set<Address>)
    requires a in t
    decreases t.Keys - seen
  {
    && a !in seen
    && (Suits(t, a, forceMaster) || Next(t, a).None? ||
        (assert a in t.Keys - seen; Arrives(t, Next(t, a).value, forceMaster, seen + {a})))
  }

  // What a caller can find out before a reconnect.
  predicate Ends(t: Topology, s: Conn, forceMaster: bool) {
    Settled(t, s, forceMaster) ||
    var a := FirstAnswering(t, Candidates(Refreshed(t, s)));
    a.None? || Arrives(t, a.value, forceMaster, {})
  }

  lemma SameCandidates(t: Topology, a: Address, slaveok: bool)
    ensures Candidates(Refreshed(t, Fresh(a, slaveok))) == Candidates(Refreshed(t, Fresh(a, false)))
  {
    hide Print;
  }

  // One step of the walk is one nested call; which slaves are acceptable does not matter.
  lemma WithinStep(t: Topology, a: Address, slaveok: bool, forceMaster: bool, n: nat)
    requires a in t && n > 0
    ensures var o := Within(t, Fresh(a, slaveok), forceMaster, n);
            o.Finished? <==> Suits(t, a, forceMaster) || Next(t, a).None?
                             || Within(t, Fresh(Next(t, a).value, slaveok), forceMaster, n - 1).Finished?
  {
    hide Within, FirstAnswering, Suits, Candidates, Refreshed, Replaced;
    SameCandidates(t, a, slaveok);
    WithinUnfold(t, Fresh(a, slaveok), forceMaster, n);
  }

  lemma {:induction false} ArrivingIsEnough(t: Topology, a: Address, slaveok: bool, forceMaster: bool,
                                            seen: set<Address>)
    requires a in t && Arrives(t, a, forceMaster, seen)
    ensures Within(t, Fresh(a, slaveok), forceMaster, |t.Keys - seen|).Finished?
    decreases t.Keys - seen
  {
    hide Next, Within, Suits;
    var n := |t.Keys - seen|;
    assert a in t.Keys - seen;
    WithinStep(t, a, slaveok, forceMaster, n);
    if !Suits(t, a, forceMaster) && Next(t, a).Some? {
      assert t.Keys - (seen + {a}) == (t.Keys - seen) - {a};
      ArrivingIsEnough(t, Next(t, a).value, slaveok, forceMaster, seen + {a});
    }
  }

  // n is the least number of calls from a, and from the nodes seen before it takes more.
  lemma {:induction false} EndingArrives(t: Topology, a: Address, slaveok: bool, forceMaster: bool,
                                         seen: set<Address>, n: nat)
    requires a in t && n > 0
    requires Within(t, Fresh(a, slaveok), forceMaster, n).Finished?
    requires Within(t, Fresh(a, slaveok), forceMaster, n - 1).Unfinished?
    requires forall x | x in seen :: x in t && Within(t, Fresh(x, slaveok), forceMaster, n).Unfinished?
    ensures Arrives(t, a, forceMaster, seen)
    decreases n
  {
    hide Next, Within, Suits;
    WithinStep(t, a, slaveok, forceMaster, n);
    if !Suits(t, a, forceMaster) && Next(t, a).Some? {
      var b := Next(t, a).value;
      if n == 1 {
        NoCalls(t, Fresh(b, slaveok), forceMaster);
      } else {
        WithinStep(t, a, slaveok, forceMaster, n - 1);
        forall x | x in seen + {a}
          ensures Within(t, Fresh(x, slaveok), forceMaster, n - 1).Unfinished?
        {
          if Within(t, Fresh(x, slaveok), forceMaster, n - 1).Finished? {
            MoreCalls(t, Fresh(x, slaveok), forceMaster, n - 1, n);
          }
        }
        EndingArrives(t, b, slaveok, forceMaster, seen + {a}, n - 1);
      }
    }
  }

  lemma {:induction false} LeastCalls(t: Topology, s: Conn, forceMaster: bool, n: nat) returns (m: nat)
    requires Within(t, s, forceMaster, n).Finished?
    ensures 0 < m <= n && Within(t, s, forceMaster, m).Finished? && Within(t, s, forceMaster, m - 1).Unfinished?
  {
    hide Within;
    NoCalls(t, s, forceMaster);
    m := n;
    while Within(t, s, forceMaster, m - 1).Finished?
      invariant 0 < m <= n && Within(t, s, forceMaster, m).Finished?
      decreases m
    {
      m := m - 1;
    }
  }

  // From a new connection a reconnect ends, in as many nested calls as there are nodes, exactly
  // if its walk comes to a node that suits, or nowhere, before it turns in a circle.
  lemma FreshEnds(t: Topology, a: Address, slaveok: bool, forceMaster: bool, n: nat)
    requires a in t
    ensures Arrives(t, a, forceMaster, {}) ==> Within(t, Fresh(a, slaveok), forceMaster, |t|).Finished?
    ensures Within(t, Fresh(a, slaveok), forceMaster, n).Finished? ==> Arrives(t, a, forceMaster, {})
  {
    hide Within;
    if Arrives(t, a, forceMaster, {}) {
      ArrivingIsEnough(t, a, slaveok, forceMaster, {});
      assert t.Keys - {} == t.Keys;
    }
    if Within(t, Fresh(a, slaveok), forceMaster, n).Finished? {
      var m := LeastCalls(t, Fresh(a, slaveok), forceMaster, n);
      EndingArrives(t, a, slaveok, forceMaster, {}, m);
    }
  }

  // The same from any connection, whatever it knows.
  lemma ReconnectEnds(t: Topology, s: Conn, forceMaster: bool, n: nat)
    ensures Within(t, s, forceMaster, n).Finished? ==> Ends(t, s, forceMaster)
    ensures Ends(t, s, forceMaster) ==> Within(t, s, forceMaster, |t| + 1).Finished?
  {
    hide Within, FirstAnswering, Candidates, Refreshed, Arrives, Settled;
    var a := FirstAnswering(t, Candidates(Refreshed(t, s)));
    if n == 0 { NoCalls(t, s, forceMaster); } else { WithinUnfold(t, s, forceMaster, n); }
    WithinUnfold(t, s, forceMaster, |t| + 1);
    if a.Some? { FreshEnds(t, a.value, s.slaveok, forceMaster, if n == 0 then 0 else n - 1); }
  }

  /** Where it ends, and what it keeps */

  // No node but a master leads nowhere.
  predicate NoDeadEnd(t: Topology) {
    forall a | a in t :: Masters(t, a) || Next(t, a).Some?
  }

  // A new connection has its own address as a seed.
  lemma OwnSeedAnswers(t: Topology, a: Address)
    requires a in t && Printable(a)
    ensures Next(t, a).Some?
    ensures t[a].Silent? || t[a].Garbled? ==> Next(t, a) == Some(a)
  {
    hide Parse, Print;
    ParsePrinted(a.host, a.port);
    var all := Candidates(Refreshed(t, Fresh(a, false)));
    assert all[|all| - 1] == Print(a.host, a.port);
    FirstAnsweringExists(t, all);
    if t[a].Silent? || t[a].Garbled? { assert all == [Print(a.host, a.port)]; }
  }

  lemma PrintableLeadsOn(t: Topology)
    requires forall a | a in t :: Printable(a)
    ensures NoDeadEnd(t)
  {
    hide Next, Masters;
    forall a | a in t
      ensures Next(t, a).Some?
    {
      OwnSeedAnswers(t, a);
    }
  }

  // Every reconnect that ends, forced or not, keeps what the client set up, on any topology.
  lemma {:induction false} ReconnectKeeps(t: Topology, s: Conn, forceMaster: bool, n: nat)
    ensures var o := Within(t, s, forceMaster, n); o.Finished? && o.result.Some? ==> Kept(s, o.result.value)
    decreases n
  {
    hide Within, FirstAnswering, Candidates, Refreshed, Kept, Fresh, Replaced, Settled;
    if n == 0 {
      NoCalls(t, s, forceMaster);
    } else {
      WithinUnfold(t, s, forceMaster, n);
      KeptItself(s);
      var a := FirstAnswering(t, Candidates(Refreshed(t, s)));
      if a.Some? {
        var o := Within(t, Fresh(a.value, s.slaveok), forceMaster, n - 1);
        ReconnectKeeps(t, Fresh(a.value, s.slaveok), forceMaster, n - 1);
        if o.Finished? && o.result.Some? { ReplacedKeeps(s, Refreshed(t, s), a.value, o.result.value); }
      }
    }
  }

  lemma KeptItself(s: Conn)
    ensures Kept(s, s)
  {
  }

  lemma ReplacedKeeps(s: Conn, s1: Conn, a: Address, r: Conn)
    requires Kept(s, s1) && Kept(Fresh(a, s.slaveok), r)
    ensures Kept(s, Replaced(s1, r))
  {
  }

  // A reconnect that ends fails exactly if the connection is not settled and nobody answers, and
  // is on a node that suits otherwise.
  lemma {:induction false} ReconnectLands(t: Topology, s: Conn, forceMaster: bool, n: nat)
    requires Within(t, s, forceMaster, n).Finished?
    ensures var r := Within(t, s, forceMaster, n).result;
            && (r.Some? <==> Settled(t, s, forceMaster) || SomeAnswers(t, Candidates(Refreshed(t, s))))
            && (r.Some? && NoDeadEnd(t) ==> Settled(t, r.value, forceMaster))
    decreases n
  {
    hide Within, FirstAnswering, Candidates, Refreshed, SomeAnswers, Suits, NoDeadEnd;
    if n == 0 {
      NoCalls(t, s, forceMaster);
    } else {
      WithinUnfold(t, s, forceMaster, n);
    }
    var all := Candidates(Refreshed(t, s));
    FirstAnsweringExists(t, all);
    var a := FirstAnswering(t, all);
    if !Settled(t, s, forceMaster) && a.Some? {
      ReconnectLands(t, Fresh(a.value, s.slaveok), forceMaster, n - 1);
      if NoDeadEnd(t) { LeadsOn(t, a.value, s.slaveok, forceMaster); }
    }
  }

  lemma LeadsOn(t: Topology, a: Address, slaveok: bool, forceMaster: bool)
    requires NoDeadEnd(t) && a in t
    ensures Settled(t, Fresh(a, slaveok), forceMaster)
            || SomeAnswers(t, Candidates(Refreshed(t, Fresh(a, slaveok))))
  {
    hide FirstAnswering, SomeAnswers, Candidates, Refreshed;
    SameCandidates(t, a, slaveok);
    FirstAnsweringExists(t, Candidates(Refreshed(t, Fresh(a, slaveok))));
  }

  // A reconnect that moves the connection forgets the replica set and resets the request id.
  lemma {:induction false} ReconnectForgets(t: Topology, s: Conn, forceMaster: bool, n: nat)
    requires NoDeadEnd(t) && !Settled(t, s, forceMaster) && Within(t, s, forceMaster, n).Finished?
    ensures var r := Within(t, s, forceMaster, n).result;
            r.Some? ==> r.value.primary == None && r.value.hosts == [] && r.value.requestId == -1
  {
    hide Within, FirstAnswering, Candidates, Refreshed, Settled, NoDeadEnd;
    if n == 0 { NoCalls(t, s, forceMaster); } else { WithinUnfold(t, s, forceMaster, n); }
    var a := FirstAnswering(t, Candidates(Refreshed(t, s)));
    if a.Some? {
      LeadsOn(t, a.value, s.slaveok, forceMaster);
      ReconnectLands(t, Fresh(a.value, s.slaveok), forceMaster, n - 1);
    }
  }

  // Where no node suits, a reconnect that finds anybody never ends.
  lemma EndlessWithoutMaster(t: Topology, s: Conn, forceMaster: bool, n: nat)
    requires NoDeadEnd(t) && forall a | a in t :: !Suits(t, a, forceMaster)
    ensures SomeAnswers(t, Candidates(Refreshed(t, s))) <==> !Ends(t, s, forceMaster)
    ensures !Ends(t, s, forceMaster) ==> Within(t, s, forceMaster, n).Unfinished?
  {
    hide Within, SomeAnswers, FirstAnswering, Candidates, Refreshed, Next;
    FirstAnsweringExists(t, Candidates(Refreshed(t, s)));
    var a := FirstAnswering(t, Candidates(Refreshed(t, s)));
    if a.Some? { NeverArrives(t, a.value, forceMaster, {}); }
    ReconnectEnds(t, s, forceMaster, n);
  }

  lemma {:induction false} NeverArrives(t: Topology, a: Address, forceMaster: bool, seen: set<Address>)
    requires NoDeadEnd(t) && a in t && forall x | x in t :: !Suits(t, x, forceMaster)
    ensures !Arrives(t, a, forceMaster, seen)
    decreases t.Keys - seen
  {
    hide Next;
    if a !in seen {
      assert a in t.Keys - seen;
      assert !Suits(t, a, forceMaster);
      NeverArrives(t, Next(t, a).value, forceMaster, seen + {a});
    }
  }

  // A single node that answers, but not to "ismaster", is asked for ever.
  lemma EndlessExample(a: Address, slaveok: bool, n: nat)
    requires Printable(a)
    ensures Within(map[a := Garbled], Fresh(a, slaveok), true, n).Unfinished?
  {
    hide Within, Print, Parse;
    var t := map[a := Garbled];
    PrintableLeadsOn(t);
    OwnSeedAnswers(t, a);
    SameCandidates(t, a, slaveok);
    FirstAnsweringExists(t, Candidates(Refreshed(t, Fresh(a, slaveok))));
    EndlessWithoutMaster(t, Fresh(a, slaveok), true, n);
  }

  // Without force a reconnect ends exactly if the connection works, nobody answers, or the first
  // to answer also answers a ping; it leaves a working connection alone.
  lemma ReconnectFindsAny(t: Topology, s: Conn)
    ensures var a := FirstAnswering(t, Candidates(s));
            && ((a.Some? ==> Printable(a.value)) ==>
                  (Ends(t, s, false) <==> Works(t, s) || a.None? || Pings(t, a.value)))
            && (Works(t, s) ==> Within(t, s, false, 2) == Finished(Some(s)))
            && (!Works(t, s) && a.None? ==> Within(t, s, false, 2) == Finished(None))
            && (!Works(t, s) && a.Some? && Pings(t, a.value) ==>
                  Within(t, s, false, 2) == Finished(Some(Replaced(s, Fresh(a.value, s.slaveok)))))
  {
    hide Within, Parse, Candidates, FirstAnswering, Next;
    WithinUnfold(t, s, false, 2);
    var a := FirstAnswering(t, Candidates(s));
    if a.Some? {
      WithinUnfold(t, Fresh(a.value, s.slaveok), false, 1);
      if Printable(a.value) { OwnSeedAnswers(t, a.value); }
      assert {} + {a.value} == {a.value};
      assert !Arrives(t, a.value, false, {a.value});
    }
  }

  /** One master that every other node names */

  lemma FixedLeadsToMaster(t: Topology, master: Address, s: Conn)
    requires Fixed(t, master) && Works(t, s) && s.node != master
    ensures FirstAnswering(t, Candidates(Refreshed(t, s))) == Some(master)
  {
    var all := Candidates(Refreshed(t, s));
    assert Parse(all[0]) == Some(master);
  }

  lemma FixedNext(t: Topology, master: Address, a: Address)
    requires Fixed(t, master) && a in t && a != master
    ensures Next(t, a) == Some(master)
  {
    hide FirstAnswering, Candidates, Refreshed;
    FixedLeadsToMaster(t, master, Fresh(a, false));
  }

  lemma FixedEnds(t: Topology, master: Address, s: Conn, forceMaster: bool)
    requires Fixed(t, master)
    ensures NoDeadEnd(t) && Ends(t, s, forceMaster)
    ensures Within(t, s, forceMaster, 3).Finished?
  {
    hide Within, Parse, Print, Candidates, FirstAnswering, Refreshed, Next, Arrives;
    forall a | a in t && a != master
      ensures Next(t, a) == Some(master)
    {
      FixedNext(t, master, a);
    }
    WithinUnfold(t, s, forceMaster, 3);
    ReconnectEnds(t, s, forceMaster, 3);
    var a := FirstAnswering(t, Candidates(Refreshed(t, s)));
    if a.Some? {
      WithinStep(t, master, s.slaveok, forceMaster, 1);
      WithinStep(t, a.value, s.slaveok, forceMaster, 2);
    }
  }

  // A forced reconnect ends after at most three nested calls, on the master exactly when the
  // connection works or the primary, a host or a seed answers; otherwise it fails.
  lemma ReconnectReachesMaster(t: Topology, master: Address, s: Conn)
    requires Fixed(t, master)
    ensures var o := Within(t, s, true, 3);
            && o.Finished?
            && (o.result.Some? <==> Works(t, s) || SomeAnswers(t, Candidates(s)))
            && (o.result.Some? ==> o.result.value.alive && o.result.value.node == master && Kept(s, o.result.value))
  {
    hide Within, Parse, Candidates, FirstAnswering, SomeAnswers;
    FixedEnds(t, master, s, true);
    ReconnectLands(t, s, true, 3);
    ReconnectKeeps(t, s, true, 3);
    if Works(t, s) && s.node != master {
      FixedLeadsToMaster(t, master, s);
      FirstAnsweringExists(t, Candidates(Refreshed(t, s)));
    }
  }

  // What a refresh has learnt is where a later failover looks: whatever has become of the old node,
  // if the only master left was among its hosts or passives, a forced reconnect ends on it.
  lemma {:induction false} LearntHostsLead(before: Topology, after: Topology, s: Conn, alive: bool, master: Address,
                                           addr: string)
    requires s.alive && s.node in before && before[s.node].Reply? && before[s.node].hosts.Some?
    requires addr in before[s.node].hosts.value || addr in before[s.node].passives
    requires Parse(addr) == Some(master) && Fixed(after, master)
    ensures var o := Within(after, Refreshed(before, s).(alive := alive), true, 3);
            && o.Finished? && o.result.Some?
            && o.result.value.alive && o.result.value.node == master
  {
    hide Within, Parse, FirstAnswering;
    var s1 := Refreshed(before, s).(alive := alive);
    ReconnectReachesMaster(after, master, s1);
    var all, hosts := Candidates(s1), before[s.node].hosts.value + before[s.node].passives;
    assert addr in hosts;
    var i :| 0 <= i < |hosts| && hosts[i] == addr;
    var k := if s1.primary.Some? then 1 else 0;
    assert all[k + i] == addr;
    assert SomeAnswers(after, all);
  }

  // What a reconnect that ends leaves behind, whether it succeeds or not.
  function Reconnected(t: Topology, s: Conn, forceMaster: bool): (r: Conn)
    requires Ends(t, s, forceMaster)
    ensures Kept(s, r)
  {
    ReconnectEnds(t, s, forceMaster, 0);
    ReconnectKeeps(t, s, forceMaster, |t| + 1);
    var result := Within(t, s, forceMaster, |t| + 1).result;
    if result.Some? then result.value else Refreshed(t, s)
  }
}
