/** The connection pool: distributing secondaries over hosts, picking and returning. */
module Pools {
  import opened Arithmetic
  import opened BsonFormat
  import opened Addresses

  /** Which hosts secondaries go to */

  predicate Eligible(addr: string, host: string, port: int) {
    Parse(addr).Some? && Parse(addr).value != Address(host, port)
  }

  lemma EligibleParts(addr: string, host: string, port: int)
    ensures Eligible(addr, host, port) <==>
              Parse(addr).Some? && (Parse(addr).value.port != port || Parse(addr).value.host != host)
  {
    hide Parse;
  }

  // The eligible places in hosts[from..], in order.
  function EligibleFrom(hosts: seq<string>, host: string, port: int, from: nat): (e: seq<nat>)
    ensures forall k | 0 <= k < |e| :: from <= e[k] < |hosts| && Eligible(hosts[e[k]], host, port)
    decreases |hosts| - from
  {
    if from >= |hosts| then []
    else if Eligible(hosts[from], host, port) then [from] + EligibleFrom(hosts, host, port, from + 1)
    else EligibleFrom(hosts, host, port, from + 1)
  }

  // The place whose turn it is for secondary i.
  function InTurn(e: seq<nat>, i: nat): nat
    requires e != []
  {
    e[i % |e|]
  }

  lemma ConsAt(x: nat, rest: seq<nat>, k: nat)
    requires 0 < k <= |rest|
    ensures ([x] + rest)[k] == rest[k - 1] && ([x] + rest)[k + 1..] == rest[k..]
  {
  }

  lemma {:induction false} EligibleStep(hosts: seq<string>, host: string, port: int, from: nat)
    ensures from >= |hosts| ==> EligibleFrom(hosts, host, port, from) == []
    ensures from < |hosts| ==>
              EligibleFrom(hosts, host, port, from)
              == (if Eligible(hosts[from], host, port) then [from] else []) + EligibleFrom(hosts, host, port, from + 1)
  {
    hide Eligible;
  }

  // One place of the list, seen from it.
  lemma {:induction false} EligibleHead(hosts: seq<string>, host: string, port: int, from: nat)
    ensures var e := EligibleFrom(hosts, host, port, from);
            && (from >= |hosts| ==> e == [])
            && (from < |hosts| && Eligible(hosts[from], host, port) ==> e != [] && e[0] == from)
            && (from < |hosts| && !Eligible(hosts[from], host, port) ==>
                  e == EligibleFrom(hosts, host, port, from + 1))
  {
    hide Eligible;
  }

  // Looking from right behind the k-th eligible place, the next ones come in order.
  lemma {:induction false} EligibleBehind(hosts: seq<string>, host: string, port: int, from: nat, k: nat)
    requires k < |EligibleFrom(hosts, host, port, from)|
    ensures var e := EligibleFrom(hosts, host, port, from);
            EligibleFrom(hosts, host, port, e[k] + 1) == e[k + 1..]
    decreases |hosts| - from
  {
    hide Eligible, EligibleFrom;
    EligibleStep(hosts, host, port, from);
    var e, rest := EligibleFrom(hosts, host, port, from), EligibleFrom(hosts, host, port, from + 1);
    if !Eligible(hosts[from], host, port) {
      assert e == rest;
      EligibleBehind(hosts, host, port, from + 1, k);
    } else {
      assert e == [from] + rest;
      if k == 0 {
        assert e[1..] == rest;
      } else {
        EligibleBehind(hosts, host, port, from + 1, k - 1);
        ConsAt(from, rest, k);
      }
    }
  }

  /** How evenly i mod m spreads */

  // How many of 0..n fall on r modulo m.
  function CountOn(n: nat, m: nat, r: nat): nat
    requires m > 0
  {
    if n == 0 then 0 else CountOn(n - 1, m, r) + if (n - 1) % m == r then 1 else 0
  }

  lemma {:induction false} CountClosed(n: nat, m: nat, r: nat)
    requires r < m
    ensures CountOn(n, m, r) == n / m + if r < n % m then 1 else 0
  {
    if n > 0 {
      CountClosed(n - 1, m, r);
      DivideStep(n - 1, m);
      var q, x := (n - 1) / m, (n - 1) % m;
      if x + 1 < m {
        assert n / m == q && n % m == x + 1;
      } else {
        assert x + 1 == m && n / m == q + 1 && n % m == 0;
      }
    }
  }

  // How many of the first n secondaries go to the place p of the host list.
  function CountAt(e: seq<nat>, n: nat, p: nat): nat
    requires e != []
  {
    if n == 0 then 0 else CountAt(e, n - 1, p) + if InTurn(e, n - 1) == p then 1 else 0
  }

  lemma {:induction false} EligibleIncreasing(hosts: seq<string>, host: string, port: int, from: nat)
    ensures var e := EligibleFrom(hosts, host, port, from); forall i, j | 0 <= i < j < |e| :: e[i] < e[j]
    decreases |hosts| - from
  {
    hide Eligible, EligibleFrom;
    if EligibleFrom(hosts, host, port, from) != [] {
      EligibleStep(hosts, host, port, from);
      EligibleIncreasing(hosts, host, port, from + 1);
    }
  }

  // The eligible places are exactly those of other addresses that can be parsed, in order.
  lemma {:induction false} EligiblePlaces(hosts: seq<string>, host: string, port: int, from: nat)
    ensures var e := EligibleFrom(hosts, host, port, from);
            && (forall i, j | 0 <= i < j < |e| :: e[i] < e[j])
            && forall p: nat :: p in e <==>
                 from <= p < |hosts| && Parse(hosts[p]).Some? && Parse(hosts[p]).value != Address(host, port)
    decreases |hosts| - from
  {
    hide Parse, EligibleFrom;
    EligibleStep(hosts, host, port, from);
    EligibleIncreasing(hosts, host, port, from);
    if from < |hosts| { EligiblePlaces(hosts, host, port, from + 1); }
  }

  lemma {:induction false} CountAtResidue(e: seq<nat>, n: nat, r: nat)
    requires r < |e| && forall i, j | 0 <= i < j < |e| :: e[i] < e[j]
    ensures CountAt(e, n, e[r]) == CountOn(n, |e|, r)
  {
    if n > 0 {
      CountAtResidue(e, n - 1, r);
      SamePlace(e, (n - 1) % |e|, r);
    }
  }

  lemma SamePlace(e: seq<nat>, i: nat, j: nat)
    requires i < |e| && j < |e| && forall i, j | 0 <= i < j < |e| :: e[i] < e[j]
    ensures e[i] == e[j] <==> i == j
  {
    assert i < j ==> e[i] < e[j];
    assert j < i ==> e[j] < e[i];
  }

  // Two eligible places of the host list get numbers of secondaries that differ by at most one.
  lemma {:induction false} FairPlaces(hosts: seq<string>, host: string, port: int, n: nat, p: nat, q: nat)
    requires var e := EligibleFrom(hosts, host, port, 0); p in e && q in e
    ensures var e := EligibleFrom(hosts, host, port, 0); -1 <= CountAt(e, n, p) - CountAt(e, n, q) <= 1
  {
    hide EligibleFrom, CountAt, CountOn;
    var e := EligibleFrom(hosts, host, port, 0);
    var r :| 0 <= r < |e| && e[r] == p;
    var s :| 0 <= s < |e| && e[s] == q;
    EligibleIncreasing(hosts, host, port, 0);
    CountAtResidue(e, n, r);
    CountAtResidue(e, n, s);
    CountClosed(n, |e|, r);
    CountClosed(n, |e|, s);
  }

  /** Picking and returning as a state machine over the in-use flags */

  datatype Slot = Master(i: nat) | Slave(i: nat)

  datatype Flags = Flags(masters: seq<bool>, slaves: seq<bool>)

  predicate InRange(f: Flags, s: Slot) {
    match s case Master(i) => i < |f.masters| case Slave(i) => i < |f.slaves|
  }

  predicate InUse(f: Flags, s: Slot)
    requires InRange(f, s)
  {
    match s case Master(i) => f.masters[i] case Slave(i) => f.slaves[i]
  }

  function Mark(f: Flags, s: Slot, used: bool): (r: Flags)
    requires InRange(f, s)
    ensures |r.masters| == |f.masters| && |r.slaves| == |f.slaves|
    ensures forall t | InRange(f, t) :: InUse(r, t) == if t == s then used else InUse(f, t)
  {
    match s
    case Master(i) => f.(masters := f.masters[i := used])
    case Slave(i) => f.(slaves := f.slaves[i := used])
  }

  function FirstFree(flags: seq<bool>, from: nat): (r: Option<nat>)
    requires from <= |flags|
    ensures r.Some? ==> from <= r.value < |flags| && !flags[r.value] && forall k | from <= k < r.value :: flags[k]
    ensures r.None? ==> forall k | from <= k < |flags| :: flags[k]
    decreases |flags| - from
  {
    if from == |flags| then None
    else if !flags[from] then Some(from)
    else FirstFree(flags, from + 1)
  }

  lemma {:induction false} FirstFreeIs(flags: seq<bool>, from: nat, i: nat)
    requires from <= i < |flags| && !flags[i] && forall k | from <= k < i :: flags[k]
    ensures FirstFree(flags, from) == Some(i)
  {
  }

  // The slot a pick takes: the first free slave if slaves will do, else the first free master.
  function Choice(f: Flags, wantMaster: bool): (r: Option<Slot>)
    ensures r.Some? ==> InRange(f, r.value) && !InUse(f, r.value) && (wantMaster ==> r.value.Master?)
    ensures r.None? <==> forall s | InRange(f, s) && (wantMaster ==> s.Master?) :: InUse(f, s)
    ensures r.Some? && r.value.Master? && !wantMaster ==> forall s | InRange(f, s) && s.Slave? :: InUse(f, s)
    ensures r.Some? && r.value.Master? ==> forall k | 0 <= k < r.value.i :: f.masters[k]
    ensures r.Some? && r.value.Slave? ==> forall k | 0 <= k < r.value.i :: f.slaves[k]
  {
    var slave := if wantMaster then None else FirstFree(f.slaves, 0);
    if slave.Some? then Some(Slave(slave.value))
    else
      var master := FirstFree(f.masters, 0);
      if master.Some? then Some(Master(master.value))
      else
        assert wantMaster || forall i | 0 <= i < |f.slaves| :: f.slaves[i];
        None
  }

  datatype Event = Pick(wantMaster: bool) | Return(slot: Slot)

  // The clients together: the slots they hold and how many picks succeeded and were returned.
  datatype World = World(flags: Flags, held: set<Slot>, picks: nat, givenBack: nat)

  // A slot is held exactly if it is in use, and the books balance.
  ghost predicate Balanced(w: World) {
    && (forall s | s in w.held :: InRange(w.flags, s))
    && (forall s | InRange(w.flags, s) :: s in w.held <==> InUse(w.flags, s))
    && |w.held| + w.givenBack == w.picks
  }

  // Clients return only what they hold; anything else is not an event of theirs.
  function Step(w: World, e: Event): World {
    match e
    case Pick(want) =>
      var c := Choice(w.flags, want);
      if c.None? then w
      else w.(flags := Mark(w.flags, c.value, true), held := w.held + {c.value}, picks := w.picks + 1)
    case Return(s) =>
      if s !in w.held || !InRange(w.flags, s) then w
      else w.(flags := Mark(w.flags, s, false), held := w.held - {s}, givenBack := w.givenBack + 1)
  }

  function Run(w: World, events: seq<Event>): World
    decreases |events|
  {
    if events == [] then w else Run(Step(w, events[0]), events[1..])
  }

  // A successful pick hands out a slot that nobody holds.
  lemma PickBalanced(w: World, want: bool)
    requires Balanced(w)
    ensures Balanced(Step(w, Pick(want)))
    ensures Choice(w.flags, want).Some? ==> Choice(w.flags, want).value !in w.held
  {
  }

  // A return frees one slot and leaves every other one as it is.
  lemma ReturnBalanced(w: World, s: Slot)
    requires Balanced(w)
    ensures Balanced(Step(w, Return(s)))
    ensures s in w.held ==>
              && !InUse(Step(w, Return(s)).flags, s)
              && forall t | InRange(w.flags, t) && t != s :: InUse(Step(w, Return(s)).flags, t) == InUse(w.flags, t)
  {
  }

  // Over every run of picks and returns no slot is held twice and the in-use count is the
  // successful picks minus the returns.
  lemma {:induction false} RunBalanced(w: World, events: seq<Event>)
    requires Balanced(w)
    ensures Balanced(Run(w, events))
    decreases |events|
  {
    if events != [] {
      match events[0] {
        case Pick(want) => PickBalanced(w, want);
        case Return(s) => ReturnBalanced(w, s);
      }
      RunBalanced(Step(w, events[0]), events[1..]);
    }
  }

  lemma FreshBalanced(f: Flags)
    requires forall s | InRange(f, s) :: !InUse(f, s)
    ensures Balanced(World(f, {}, 0, 0))
  {
  }

  /** The pool */

  class PoolConnection {
    const host: string
    const port: int
    const slaveok: bool
    const poolId: int
    var inUse: bool

    constructor (host: string, port: int, slaveok: bool, poolId: int)
      ensures this.host == host && this.port == port && this.slaveok == slaveok
      ensures this.poolId == poolId && !inUse
    {
      this.host, this.port, this.slaveok, this.poolId, inUse := host, port, slaveok, poolId, false;
    }
  }

  class Pool {
    var nmasters: int
    var nslaves: int
    var masters: seq<PoolConnection>
    var slaves: seq<PoolConnection>

    // Every id leads back to its own place; without eligible hosts nslaves is -1.
    ghost predicate Valid()
      reads this
    {
      && nmasters == |masters| && (nslaves == |slaves| || (nslaves == -1 && slaves == []))
      && (forall i | 0 <= i < |masters| :: masters[i].poolId == i)
      && (forall i | 0 <= i < |slaves| :: slaves[i].poolId == nmasters + i + 1)
    }

    ghost function State(): (f: Flags)
      reads this, masters, slaves
      ensures |f.masters| == |masters| && |f.slaves| == |slaves|
    {
      Flags(seq(|masters|, i requires 0 <= i < |masters| reads this, masters => masters[i].inUse),
            seq(|slaves|, i requires 0 <= i < |slaves| reads this, slaves => slaves[i].inUse))
    }

    ghost function At(s: Slot): PoolConnection
      requires InRange(State(), s)
      reads this, masters, slaves
    {
      match s case Master(i) => masters[i] case Slave(i) => slaves[i]
    }

    constructor Empty(nmasters: int, nslaves: int)
      ensures this.nmasters == nmasters && this.nslaves == nslaves && masters == [] && slaves == []
    {
      this.nmasters, this.nslaves, masters, slaves := nmasters, nslaves, [], [];
    }

    // The do-while loop that selects the next secondary from place j on, starting over once.
    static method NextSecondary(hosts: seq<string>, host: string, port: int, from: nat)
      returns (found: bool, addr: Address, j: nat)
      ensures var rest, all := EligibleFrom(hosts, host, port, from), EligibleFrom(hosts, host, port, 0);
              var e := if rest == [] && from != 0 then all else rest;
              && found == (e != [])
              && (found ==> j == e[0] + 1 && Some(addr) == Parse(hosts[e[0]]))
    {
      hide Parse, EligibleFrom, Eligible;
      j := from;
      addr := Address("", 27017);
      var l := j;
      var needRestart := j != 0;
      ghost var goal := EligibleFrom(hosts, host, port, from);
      if goal == [] && from != 0 { goal := EligibleFrom(hosts, host, port, 0); }
      while true
        invariant needRestart ==> from != 0 && j == l
        invariant l < |hosts| ==> j == l
        invariant needRestart ==>
                    goal == (if EligibleFrom(hosts, host, port, l) == [] then EligibleFrom(hosts, host, port, 0)
                             else EligibleFrom(hosts, host, port, l))
        invariant !needRestart ==> goal == EligibleFrom(hosts, host, port, l)
        decreases needRestart, |hosts| - l
      {
        EligibleHead(hosts, host, port, l);
        EligibleHead(hosts, host, port, |hosts|);
        j := j + 1;
        if l < |hosts| {
          var ok, h, p := ParseAddr(hosts[l]);
          EligibleParts(hosts[l], host, port);
          if ok && (p != port || host != h.value) {
            return true, Address(h.value, p), j;
          }
          l := l + 1;
        }
        if l >= |hosts| && needRestart {
          needRestart := false;
          j := 0;
          l := 0;
        }
        if l >= |hosts| { return false, addr, j; }
      }
    }

    static method SecondaryInTurn(hosts: seq<string>, host: string, port: int, ghost i: nat, from: nat)
      returns (found: bool, addr: Address, j: nat)
      requires var e := EligibleFrom(hosts, host, port, 0);
               if i == 0 then from == 0 else e != [] && from == InTurn(e, i - 1) + 1
      ensures var e := EligibleFrom(hosts, host, port, 0);
              && found == (e != [])
              && (found ==> InTurn(e, i) < |hosts| && j == InTurn(e, i) + 1 && Some(addr) == Parse(hosts[InTurn(e, i)]))
    {
      hide Parse, Eligible;
      if i > 0 { NextInTurn(hosts, host, port, i); }
      found, addr, j := NextSecondary(hosts, host, port, from);
    }

    static method Create(host: string, port: int, nmasters: int, nslaves: int,
                         reachable: bool, isMaster: bool, hosts: seq<string>)
      returns (p: Pool?)
      ensures p != null <==>
                port >= 0 && nmasters >= 0 && nslaves >= 0 && nmasters + nslaves > 0 && reachable && isMaster
      ensures p != null ==>
                && fresh(p) && fresh(p.masters) && fresh(p.slaves) && p.Valid() && |p.masters| == nmasters
                && (forall s | InRange(p.State(), s) :: !InUse(p.State(), s))
                && (forall c | c in p.masters :: c.host == host && c.port == port && !c.slaveok)
                && var e := EligibleFrom(hosts, host, port, 0);
                   // The search can fail only for the first secondary, and only without eligible hosts.
                   && (e == [] && nslaves > 0 ==> p.slaves == [] && p.nslaves == -1)
                   && (nslaves == 0 ==> p.slaves == [] && p.nslaves == 0)
                   && (e != [] ==>
                         && |p.slaves| == p.nslaves == nslaves
                         && InTurns(p.slaves, hosts, e)
                         && forall i | 0 <= i < nslaves :: p.Placed(i, hosts, e))
    {
      hide Parse;
      if port < 0 || nmasters < 0 || nslaves < 0 || nmasters + nslaves <= 0 { return null; }
      if !reachable || !isMaster { return null; }
      p := new Pool.Empty(nmasters, nslaves);
      for i := 0 to nmasters
        invariant fresh(p) && fresh(p.masters) && |p.masters| == i && p.slaves == []
        invariant p.nmasters == nmasters && p.nslaves == nslaves
        invariant forall k | 0 <= k < i ::
                    var c := p.masters[k]; c.poolId == k && !c.inUse && c.host == host && c.port == port && !c.slaveok
      {
        var c := new PoolConnection(host, port, false, i);
        p.masters := p.masters + [c];
      }
      p.AddSlaves(host, port, nslaves, hosts);
      if EligibleFrom(hosts, host, port, 0) != [] { p.AllInTurns(hosts, EligibleFrom(hosts, host, port, 0)); }
    }

    lemma AllInTurns(hosts: seq<string>, e: seq<nat>)
      requires e != [] && forall k: nat :: InTurn(e, k) < |hosts|
      requires forall k | 0 <= k < |slaves| :: Placed(k, hosts, e)
      ensures InTurns(slaves, hosts, e)
    {
      hide Parse, InTurn;
      forall k | 0 <= k < |slaves|
        ensures Some(Address(slaves[k].host, slaves[k].port)) == Parse(hosts[InTurn(e, k)])
      {
        assert Placed(k, hosts, e);
      }
    }

    // Secondary k of the pool is connected to an eligible host, in turn.
    ghost predicate Placed(k: nat, hosts: seq<string>, e: seq<nat>)
      requires k < |slaves| && e != [] && InTurn(e, k) < |hosts|
      reads this, slaves
    {
      var c := slaves[k];
      && c.poolId == nmasters + k + 1 && !c.inUse && c.slaveok
      && Some(Address(c.host, c.port)) == Parse(hosts[InTurn(e, k)])
    }

    method AddSlaves(host: string, port: int, wanted: nat, hosts: seq<string>)
      requires nmasters == |masters| && nslaves == wanted && slaves == []
      requires forall k | 0 <= k < |masters| :: masters[k].poolId == k
      modifies this
      ensures Valid() && forall k | 0 <= k < |slaves| :: !slaves[k].inUse
      ensures masters == old(masters) && nmasters == old(nmasters) && fresh(slaves)
      ensures var e := EligibleFrom(hosts, host, port, 0);
              && (e == [] && wanted > 0 ==> slaves == [] && nslaves == -1)
              && (e == [] && wanted == 0 ==> slaves == [] && nslaves == 0)
              && (e != [] ==> |slaves| == nslaves == wanted && forall k | 0 <= k < wanted :: Placed(k, hosts, e))
    {
      hide Parse, EligibleFrom, Eligible, Placed, InTurn;
      ghost var e := EligibleFrom(hosts, host, port, 0);
      TurnsInRange(hosts, host, port);
      var i, j := 0, 0;
      while i < nslaves
        invariant 0 <= i == |slaves| <= nslaves == wanted && (i > 0 ==> e != []) && fresh(slaves)
        invariant masters == old(masters) && nmasters == old(nmasters)
        invariant forall k | 0 <= k < i :: slaves[k].poolId == nmasters + k + 1 && !slaves[k].inUse
        invariant j == if i == 0 then 0 else InTurn(e, i - 1) + 1
        invariant forall k | 0 <= k < i :: Placed(k, hosts, e)
      {
        var found, addr;
        found, addr, j := SecondaryInTurn(hosts, host, port, i, j);
        if !found {
          assert i == 0;
          nslaves := i - 1;
          return;
        }
        AddSlave(addr, i, hosts, e);
        i := i + 1;
      }
    }

    method AddSlave(addr: Address, i: nat, ghost hosts: seq<string>, ghost e: seq<nat>)
      requires i == |slaves| && e != [] && forall k: nat :: InTurn(e, k) < |hosts|
      requires Some(addr) == Parse(hosts[InTurn(e, i)])
      requires forall k | 0 <= k < i :: Placed(k, hosts, e)
      modifies this`slaves
      ensures |slaves| == i + 1 && slaves[..i] == old(slaves) && fresh(slaves[i])
      ensures forall k | 0 <= k < i + 1 :: Placed(k, hosts, e)
      ensures slaves[i].poolId == nmasters + i + 1 && !slaves[i].inUse
    {
      hide Parse;
      var c := new PoolConnection(addr.host, addr.port, true, nmasters + i + 1);
      slaves := slaves + [c];
      assert forall k | 0 <= k < i :: old(Placed(k, hosts, e)) && slaves[k] == old(slaves[k]);
    }

    static ghost function FlagsOf(conns: seq<PoolConnection>): (f: seq<bool>)
      reads conns
      ensures |f| == |conns|
    {
      seq(|conns|, i requires 0 <= i < |conns| reads conns => conns[i].inUse)
    }

    // Taking the first free connection of a list.
    static method TakeFree(conns: seq<PoolConnection>) returns (i: nat, c: PoolConnection?)
      requires forall a, b | 0 <= a < b < |conns| :: conns[a] != conns[b]
      modifies conns
      ensures var r := old(FirstFree(FlagsOf(conns), 0));
              && (c == null <==> r.None?)
              && (c != null ==> r == Some(i) && c == conns[i])
              && FlagsOf(conns) == if r.None? then old(FlagsOf(conns)) else old(FlagsOf(conns))[i := true]
    {
      ghost var f := FlagsOf(conns);
      i := 0;
      while i < |conns|
        invariant i <= |conns| && (forall k | 0 <= k < i :: f[k]) && FlagsOf(conns) == f
      {
        if !conns[i].inUse {
          assert conns[i] in conns;
          conns[i].inUse := true;
          FirstFreeIs(f, 0, i);
          assert FlagsOf(conns) == f[i := true];
          return i, conns[i];
        }
        i := i + 1;
      }
      return i, null;
    }

    lemma Apart()
      requires Valid()
      ensures forall a, b | 0 <= a < b < |masters| :: masters[a] != masters[b]
      ensures forall a, b | 0 <= a < b < |slaves| :: slaves[a] != slaves[b]
      ensures forall c | c in masters :: c !in slaves
    {
    }

    method TakeSlave() returns (c: PoolConnection?)
      requires Valid()
      modifies slaves
      ensures var r := old(FirstFree(State().slaves, 0));
              && c == (if r.None? then null else slaves[r.value])
              && State() == if r.None? then old(State()) else Mark(old(State()), Slave(r.value), true)
    {
      Apart();
      assert State().slaves == FlagsOf(slaves);
      var i;
      i, c := TakeFree(slaves);
      assert State().slaves == FlagsOf(slaves) && State().masters == old(State()).masters;
    }

    method TakeMaster() returns (c: PoolConnection?)
      requires Valid()
      modifies masters
      ensures var r := old(FirstFree(State().masters, 0));
              && c == (if r.None? then null else masters[r.value])
              && State() == if r.None? then old(State()) else Mark(old(State()), Master(r.value), true)
    {
      Apart();
      assert State().masters == FlagsOf(masters);
      var i;
      i, c := TakeFree(masters);
      assert State().masters == FlagsOf(masters) && State().slaves == old(State()).slaves;
    }

    method Pick(wantMaster: bool) returns (c: PoolConnection?)
      requires Valid()
      modifies masters, slaves
      ensures Valid()
      ensures var s := old(Choice(State(), wantMaster));
              && c == (if s.None? then null else old(At(s.value)))
              && State() == if s.None? then old(State()) else Mark(old(State()), s.value, true)
    {
      hide FirstFree, Mark;
      if !wantMaster {
        c := TakeSlave();
        if c != null { return; }
      }
      c := TakeMaster();
    }

    // The slot that an id stands for.
    ghost function SlotAt(id: nat): (r: Option<Slot>)
      requires Valid() && id != nmasters
      reads this, masters, slaves
      ensures r.Some? ==> InRange(State(), r.value) && At(r.value).poolId == id
      ensures r.None? <==> id > nmasters && id - nmasters > |slaves|
    {
      if id < nmasters then Some(Master(id))
      else if id - nmasters <= |slaves| then Some(Slave(id - nmasters - 1))
      else None
    }

    // The connection is found again by its id alone, so one of another pool frees the one with
    // its id here, and is refused only if the id is too large.
    method Return(conn: PoolConnection) returns (ok: bool)
      requires Valid() && 0 <= conn.poolId != nmasters
      modifies masters, slaves
      ensures Valid()
      ensures var s := old(SlotAt(conn.poolId));
              && ok == s.Some?
              && State() == if ok then Mark(old(State()), s.value, false) else old(State())
      ensures conn in masters || conn in slaves ==> ok && old(At(SlotAt(conn.poolId).value)) == conn
    {
      ghost var s := SlotAt(conn.poolId);
      if conn in masters || conn in slaves {
        var own := SlotOf(conn);
        assert s == Some(own);
      }
      if conn.poolId > nmasters {
        if conn.poolId - nmasters > nslaves || nslaves == 0 { return false; }
        slaves[conn.poolId - nmasters - 1].inUse := false;
      } else {
        masters[conn.poolId].inUse := false;
      }
      ok := true;
      assert State() == Mark(old(State()), s.value, false);
    }

    lemma SlotOf(conn: PoolConnection) returns (s: Slot)
      requires Valid() && (conn in masters || conn in slaves)
      ensures InRange(State(), s) && At(s) == conn
      ensures conn.poolId > nmasters <==> s.Slave?
      ensures s.i == if s.Slave? then conn.poolId - nmasters - 1 else conn.poolId
      ensures s.Slave? ==> nslaves == |slaves|
    {
      if conn in masters {
        var i :| 0 <= i < |masters| && masters[i] == conn;
        return Master(i);
      }
      var i :| 0 <= i < |slaves| && slaves[i] == conn;
      return Slave(i);
    }
  }

  // How many connections of a pool go to the address a.
  ghost function Connected(conns: seq<PoolConnection>, a: Address): nat {
    if conns == [] then 0
    else
      var last := conns[|conns| - 1];
      Connected(conns[..|conns| - 1], a) + if Address(last.host, last.port) == a then 1 else 0
  }

  // The secondaries of a pool are connected to the eligible hosts in turn.
  ghost predicate InTurns(conns: seq<PoolConnection>, hosts: seq<string>, e: seq<nat>) {
    e != [] && forall k | 0 <= k < |conns| ::
      InTurn(e, k) < |hosts| && Some(Address(conns[k].host, conns[k].port)) == Parse(hosts[InTurn(e, k)])
  }

  // No eligible host is listed twice.
  predicate NoneTwice(hosts: seq<string>, e: seq<nat>) {
    && (forall p | p in e :: p < |hosts|)
    && (forall p, q | p in e && q in e && Parse(hosts[p]) == Parse(hosts[q]) :: p == q)
  }

  lemma {:induction false} ConnectedInTurn(conns: seq<PoolConnection>, hosts: seq<string>, e: seq<nat>, p: nat,
                                           a: Address)
    requires InTurns(conns, hosts, e) && NoneTwice(hosts, e) && p in e && Parse(hosts[p]) == Some(a)
    ensures Connected(conns, a) == CountAt(e, |conns|, p)
  {
    hide Parse;
    if conns != [] {
      var n := |conns| - 1;
      ConnectedInTurn(conns[..n], hosts, e, p, a);
      assert InTurn(e, n) in e;
    }
  }

  // In a pool over hosts that are listed once, the numbers of secondaries connected to two
  // eligible hosts differ by at most one.
  lemma {:induction false} FairShare(pool: Pool, hosts: seq<string>, host: string, port: int, a: Address, b: Address)
    requires var e := EligibleFrom(hosts, host, port, 0);
             && InTurns(pool.slaves, hosts, e) && NoneTwice(hosts, e)
             && exists p, q :: p in e && q in e && Parse(hosts[p]) == Some(a) && Parse(hosts[q]) == Some(b)
    ensures -1 <= Connected(pool.slaves, a) - Connected(pool.slaves, b) <= 1
  {
    hide Parse, EligibleFrom, CountAt, Connected, InTurns;
    var e := EligibleFrom(hosts, host, port, 0);
    var p, q :| p in e && q in e && Parse(hosts[p]) == Some(a) && Parse(hosts[q]) == Some(b);
    ConnectedInTurn(pool.slaves, hosts, e, p, a);
    ConnectedInTurn(pool.slaves, hosts, e, q, b);
    FairPlaces(hosts, host, port, |pool.slaves|, p, q);
  }

  // After the (i - 1)-th secondary the search finds the eligible host number i mod m.
  lemma NextInTurn(hosts: seq<string>, host: string, port: int, i: nat)
    requires i > 0 && EligibleFrom(hosts, host, port, 0) != []
    ensures var e := EligibleFrom(hosts, host, port, 0);
            var rest := EligibleFrom(hosts, host, port, InTurn(e, i - 1) + 1);
            var next := if rest == [] then e else rest;
            next != [] && next[0] == InTurn(e, i)
  {
    hide EligibleFrom;
    var e := EligibleFrom(hosts, host, port, 0);
    EligibleBehind(hosts, host, port, 0, (i - 1) % |e|);
    DivideStep(i - 1, |e|);
  }

  lemma TurnsInRange(hosts: seq<string>, host: string, port: int)
    ensures var e := EligibleFrom(hosts, host, port, 0);
            e != [] ==> forall k: nat :: InTurn(e, k) < |hosts|
  {
  }
}
