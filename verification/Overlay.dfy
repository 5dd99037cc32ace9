/** The overlay as a whole: copies of signed packets travelling between nodes that each run
    ServerContext.ReadCallback, with any interleaving of sends, deliveries, losses and
    routing changes. */
module Overlay {
  import opened PeerTypes
  import opened ServerContext
  import opened Words
  import FC = FifoCache

  /** A copy of a packet for the node at an address. */
  datatype Copy = Copy(dest: Addr, pkt: Packet)

  datatype Node = Node(deviceId: Id, cache: FC.State<Sig>, routes: Routes)

  /** What happened, in order. */
  datatype Event =
    | Originated(sig: Sig, receiver: Id, dest: Addr)
    | Transmitted(sig: Sig)
    | Dropped(sig: Sig)
    | Received(at: Addr, sig: Sig, receiver: Id, ttl: uint32, hop: Hop, fanout: nat)

  /** tasks are submitted sends, wire the copies sent and not yet received; both are bags,
      since a step may take any of their elements. */
  datatype Net = Net(nodes: map<Addr, Node>, tasks: seq<Copy>, wire: seq<Copy>, log: seq<Event>)

  function Without<T>(s: seq<T>, i: nat): seq<T>
    requires i < |s|
  {
    s[..i] + s[i + 1..]
  }

  /** The send tasks submitted for one packet. */
  function Tasks(sends: seq<Addr>, pkt: Packet): (r: seq<Copy>)
    ensures |r| == |sends|
  {
    seq(|sends|, i requires 0 <= i < |sends| => Copy(sends[i], pkt))
  }

  datatype Step =
    | Originate(sig: Sig, receiver: Id, dest: Addr)
    | Transmit(i: nat)
    | Fail(i: nat)
    | Deliver(i: nat, sends: seq<Addr>)
    | Lose(i: nat)
    | Reroute(at: Addr, routes: Routes)

  ghost predicate Initial(net: Net, capacity: nat, n: nat) {
    && net.tasks == [] && net.wire == [] && net.log == []
    && forall a :: a in net.nodes ==>
         net.nodes[a].cache == FC.Fresh(capacity, NO_SIG) && |net.nodes[a].routes| <= n
  }

  /** n bounds the routing entries of every node. */
  ghost predicate Next(net: Net, net': Net, step: Step, n: nat) {
    match step
    case Originate(sig, receiver, dest) =>
      net' == net.(tasks := net.tasks + [Copy(dest, Packet(sig, receiver, INITIAL_TTL))],
                   log := net.log + [Originated(sig, receiver, dest)])
    case Transmit(i) =>
      i < |net.tasks| &&
      var c := net.tasks[i];
      net' == net.(tasks := Without(net.tasks, i),
                   wire := net.wire + [c.(pkt := c.pkt.(ttl := Decrement(c.pkt.ttl)))],
                   log := net.log + [Transmitted(c.pkt.sig)])
    case Fail(i) =>
      i < |net.tasks| &&
      net' == net.(tasks := Without(net.tasks, i), log := net.log + [Dropped(net.tasks[i].pkt.sig)])
    case Lose(i) =>
      i < |net.wire| &&
      net' == net.(wire := Without(net.wire, i), log := net.log + [Dropped(net.wire[i].pkt.sig)])
    case Reroute(at, routes) =>
      at in net.nodes && |routes| <= n
      && net' == net.(nodes := net.nodes[at := net.nodes[at].(routes := routes)])
    case Deliver(i, sends) =>
      i < |net.wire| && net.wire[i].dest in net.nodes && |net.nodes[net.wire[i].dest].cache.list| > 0 &&
      var Copy(at, pkt) := net.wire[i];
      var node := net.nodes[at];
      var hop := HopOf(node.deviceId, node.cache, pkt);
      && (if hop == Forwarded then Targets(node.routes, pkt, sends) else sends == [])
      && net' == Net(net.nodes[at := node.(cache := CacheAfter(node.cache, pkt))],
                     net.tasks + Tasks(sends, pkt),
                     Without(net.wire, i),
                     net.log + [Received(at, pkt.sig, pkt.receiver, pkt.ttl, hop, |sends|)])
  }

  ghost predicate CanStep(net: Net, net': Net, n: nat) {
    exists step :: Next(net, net', step, n)
  }

  ghost predicate IsRun(run: seq<Net>, capacity: nat, n: nat)
    decreases |run|
  {
    && run != []
    && if |run| == 1 then Initial(run[0], capacity, n)
       else IsRun(run[..|run| - 1], capacity, n) && CanStep(run[|run| - 2], run[|run| - 1], n)
  }

  // ----- hop budgets -----

  /** A submitted send still has a hop to spend, and no copy has more than send_pkg gave it;
      so the decrement before sending never wraps around. */
  ghost predicate BudgetOk(net: Net, n: nat) {
    && (forall c :: c in net.tasks ==> 1 <= c.pkt.ttl <= INITIAL_TTL)
    && (forall c :: c in net.wire ==> c.pkt.ttl <= INITIAL_TTL - 1)
    && (forall a :: a in net.nodes ==> |net.nodes[a].routes| <= n)
  }

  lemma StepBudget(net: Net, net': Net, step: Step, n: nat)
    requires BudgetOk(net, n) && Next(net, net', step, n)
    ensures BudgetOk(net', n)
  {
  }

  // ----- flooding terminates -----

  function Pow(b: nat, k: nat): nat {
    if k == 0 then 1 else b * Pow(b, k - 1)
  }

  lemma {:induction false} PowPositive(b: nat, k: nat)
    requires b > 0
    ensures Pow(b, k) > 0
    decreases k
  {
    if k > 0 {
      PowPositive(b, k - 1);
    }
  }

  /** How much of the flood of sig is still to come from a bag of copies; early is 1 for
      copies whose next hop is not yet spent. */
  ghost function Potential(copies: seq<Copy>, sig: Sig, n: nat, early: nat): nat
    decreases |copies|
  {
    if copies == [] then 0
    else
      var c := copies[|copies| - 1];
      Potential(copies[..|copies| - 1], sig, n, early)
      + CopyPotential(c, sig, n, early)
  }

  ghost function NetPotential(net: Net, sig: Sig, n: nat): nat {
    Potential(net.wire, sig, n, 0) + Potential(net.tasks, sig, n, 1)
  }

  ghost function CopyPotential(c: Copy, sig: Sig, n: nat, early: nat): nat {
    if c.pkt.sig == sig && c.pkt.ttl >= early then Pow(n + 1, c.pkt.ttl - early) else 0
  }

  lemma PotentialPush(copies: seq<Copy>, c: Copy, sig: Sig, n: nat, early: nat)
    ensures Potential(copies + [c], sig, n, early)
         == Potential(copies, sig, n, early) + CopyPotential(c, sig, n, early)
  {
    assert (copies + [c])[..|copies|] == copies;
  }

  lemma {:induction false} PotentialConcat(a: seq<Copy>, b: seq<Copy>, sig: Sig, n: nat, early: nat)
    ensures Potential(a + b, sig, n, early) == Potential(a, sig, n, early) + Potential(b, sig, n, early)
    decreases |b|
  {
    if b == [] {
      assert a + b == a;
    } else {
      var m := |b| - 1;
      assert a + b == (a + b[..m]) + [b[m]];
      PotentialPush(a + b[..m], b[m], sig, n, early);
      PotentialConcat(a, b[..m], sig, n, early);
    }
  }

  lemma PotentialWithout(copies: seq<Copy>, i: nat, sig: Sig, n: nat, early: nat)
    requires i < |copies|
    ensures Potential(copies, sig, n, early)
         == Potential(Without(copies, i), sig, n, early) + CopyPotential(copies[i], sig, n, early)
  {
    assert copies == copies[..i] + [copies[i]] + copies[i + 1..];
    PotentialPush(copies[..i], copies[i], sig, n, early);
    PotentialConcat(copies[..i] + [copies[i]], copies[i + 1..], sig, n, early);
    PotentialConcat(copies[..i], copies[i + 1..], sig, n, early);
  }

  lemma {:induction false} PotentialOfTasks(sends: seq<Addr>, pkt: Packet, sig: Sig, n: nat)
    requires pkt.ttl >= 1
    ensures Potential(Tasks(sends, pkt), sig, n, 1)
         == if pkt.sig == sig then |sends| * Pow(n + 1, pkt.ttl - 1) else 0
    decreases |sends|
  {
    hide Pow;
    if sends == [] {
      assert Tasks(sends, pkt) == [];
    } else {
      var m, p := |sends| - 1, Pow(n + 1, pkt.ttl - 1);
      PotentialOfTasks(sends[..m], pkt, sig, n);
      assert Tasks(sends, pkt) == Tasks(sends[..m], pkt) + [Copy(sends[m], pkt)];
      PotentialPush(Tasks(sends[..m], pkt), Copy(sends[m], pkt), sig, n, 1);
      assert |sends| * p == m * p + p;
    }
  }

  ghost function Originations(log: seq<Event>, sig: Sig): nat
    decreases |log|
  {
    if log == [] then 0
    else Originations(log[..|log| - 1], sig) + if log[|log| - 1].Originated? && log[|log| - 1].sig == sig then 1 else 0
  }

  ghost function Deliveries(log: seq<Event>, sig: Sig): nat
    decreases |log|
  {
    if log == [] then 0
    else Deliveries(log[..|log| - 1], sig)
         + (if log[|log| - 1].Received? && log[|log| - 1].sig == sig then 1 else 0)
  }

  lemma LogPush(log: seq<Event>, e: Event, sig: Sig)
    ensures Originations(log + [e], sig) == Originations(log, sig) + if e.Originated? && e.sig == sig then 1 else 0
    ensures Deliveries(log + [e], sig) == Deliveries(log, sig) + if e.Received? && e.sig == sig then 1 else 0
  {
    assert (log + [e])[..|log|] == log;
  }

  /** A delivered copy of sig always costs more than the copies it turns into. */
  lemma DeliveryCosts(c: Copy, sends: seq<Addr>, sig: Sig, n: nat)
    requires |sends| <= n && (c.pkt.ttl == 0 ==> sends == [])
    ensures Potential(Tasks(sends, c.pkt), sig, n, 1) <= CopyPotential(c, sig, n, 0)
    ensures c.pkt.sig == sig ==> Potential(Tasks(sends, c.pkt), sig, n, 1) < CopyPotential(c, sig, n, 0)
  {
    if c.pkt.ttl == 0 {
      assert Tasks(sends, c.pkt) == [];
    } else {
      var p := Pow(n + 1, c.pkt.ttl - 1);
      PowPositive(n + 1, c.pkt.ttl - 1);
      PotentialOfTasks(sends, c.pkt, sig, n);
      MulLess(|sends|, n, p);
    }
  }

  lemma MulLess(a: nat, b: nat, p: nat)
    requires a <= b && p > 0
    ensures a * p < (b + 1) * p
  {
    assert (b + 1) * p == a * p + (b + 1 - a) * p;
    assert (b + 1 - a) * p >= p;
  }

  /** Every delivery of a copy of sig lowers the potential of sig, sending a copy keeps it,
      and no step but an origination of sig, which adds (n + 1)^9, raises it. */
  lemma StepPotential(net: Net, net': Net, step: Step, sig: Sig, n: nat)
    requires BudgetOk(net, n) && Next(net, net', step, n)
    ensures var delivered := step.Deliver? && net.wire[step.i].pkt.sig == sig;
            var added := if step.Originate? && step.sig == sig then Pow(n + 1, 9) else 0;
            NetPotential(net', sig, n) + (if delivered then 1 else 0) <= NetPotential(net, sig, n) + added
    ensures step.Transmit? ==> NetPotential(net', sig, n) == NetPotential(net, sig, n)
    ensures step.Originate? ==>
              NetPotential(net', sig, n) == NetPotential(net, sig, n) + if step.sig == sig then Pow(n + 1, 9) else 0
  {
    hide Potential, Pow, Targets, Tasks, Without, HopOf, CacheAfter, FC.Lookup;
    match step
    case Originate(s, receiver, dest) =>
      PotentialPush(net.tasks, Copy(dest, Packet(s, receiver, INITIAL_TTL)), sig, n, 1);
    case Transmit(i) =>
      var c := net.tasks[i];
      PotentialWithout(net.tasks, i, sig, n, 1);
      PotentialPush(net.wire, c.(pkt := c.pkt.(ttl := Decrement(c.pkt.ttl))), sig, n, 0);
    case Fail(i) =>
      PotentialWithout(net.tasks, i, sig, n, 1);
    case Lose(i) =>
      PotentialWithout(net.wire, i, sig, n, 0);
    case Reroute(_, _) =>
    case Deliver(i, sends) =>
      var c := net.wire[i];
      PotentialWithout(net.wire, i, sig, n, 0);
      PotentialConcat(net.tasks, Tasks(sends, c.pkt), sig, n, 1);
      FanoutBounded(net, net', i, sends, n);
      DeliveryCosts(c, sends, sig, n);
  }

  lemma FanoutBounded(net: Net, net': Net, i: nat, sends: seq<Addr>, n: nat)
    requires BudgetOk(net, n) && Next(net, net', Deliver(i, sends), n)
    ensures |sends| <= n && (net.wire[i].pkt.ttl == 0 ==> sends == [])
  {
    var Copy(at, pkt) := net.wire[i];
    if sends != [] {
      TargetsBounded(net.nodes[at].routes, pkt, sends);
    }
  }

  lemma StepFlood(net: Net, net': Net, step: Step, sig: Sig, n: nat)
    requires BudgetOk(net, n) && Next(net, net', step, n)
    requires Deliveries(net.log, sig) + NetPotential(net, sig, n)
          <= Originations(net.log, sig) * Pow(n + 1, 9)
    ensures Deliveries(net'.log, sig) + NetPotential(net', sig, n)
         <= Originations(net'.log, sig) * Pow(n + 1, 9)
  {
    hide Pow, Deliveries, Originations, NetPotential;
    StepPotential(net, net', step, sig, n);
    if !step.Reroute? {
      LogPush(net.log, net'.log[|net.log|], sig);
    }
    if step.Originate? && step.sig == sig {
      assert (Originations(net.log, sig) + 1) * Pow(n + 1, 9)
          == Originations(net.log, sig) * Pow(n + 1, 9) + Pow(n + 1, 9);
    }
  }

  /** Flooding terminates: in every run the copies of a packet are delivered at most
      (n + 1)^9 times for each time it was sent, and what is still in flight counts too. */
  lemma {:induction false} FloodingTerminates(run: seq<Net>, capacity: nat, sig: Sig, n: nat)
    requires IsRun(run, capacity, n)
    ensures var net := run[|run| - 1];
            && BudgetOk(net, n)
            && Deliveries(net.log, sig) + NetPotential(net, sig, n)
               <= Originations(net.log, sig) * Pow(n + 1, 9)
    decreases |run|
  {
    if |run| > 1 {
      FloodingTerminates(run[..|run| - 1], capacity, sig, n);
      var step :| Next(run[|run| - 2], run[|run| - 1], step, n);
      StepBudget(run[|run| - 2], run[|run| - 1], step, n);
      StepFlood(run[|run| - 2], run[|run| - 1], step, sig, n);
    }
  }

  // ----- duplicate suppression -----

  /** The signatures looked up in the cache of the node at a. */
  ghost function Lookups(log: seq<Event>, a: Addr): seq<Sig>
    decreases |log|
  {
    if log == [] then []
    else
      var e := log[|log| - 1];
      Lookups(log[..|log| - 1], a)
      + if e.Received? && e.at == a && e.hop != TtlZero then [e.sig] else []
  }

  predicate AcceptedAt(e: Event, a: Addr, sig: Sig) {
    e.Received? && e.at == a && e.sig == sig && e.hop.Accepted()
  }

  /** How often the node at a forwarded or handled sig. */
  ghost function Acceptances(log: seq<Event>, a: Addr, sig: Sig): nat
    decreases |log|
  {
    if log == [] then 0
    else Acceptances(log[..|log| - 1], a, sig) + if AcceptedAt(log[|log| - 1], a, sig) then 1 else 0
  }

  /** All copies of sig ever submitted for sending, anywhere. */
  ghost function CopiesMade(log: seq<Event>, sig: Sig): nat
    decreases |log|
  {
    if log == [] then 0
    else
      var e := log[|log| - 1];
      CopiesMade(log[..|log| - 1], sig)
      + if e.Originated? && e.sig == sig then 1 else if e.Received? && e.sig == sig then e.fanout else 0
  }

  /** Each node's cache is the cache of its lookups, and it accepts exactly the misses. */
  ghost predicate CachesOk(net: Net, capacity: nat)
    requires capacity > 0
  {
    forall a :: a in net.nodes ==> NodeOk(net.nodes[a].cache, net.log, a, capacity)
  }

  ghost predicate LogOk(net: Net, n: nat) {
    forall k :: 0 <= k < |net.log| && net.log[k].Received? ==>
      net.log[k].at in net.nodes && net.log[k].fanout <= n
      && (net.log[k].fanout > 0 ==> net.log[k].hop.Accepted())
  }

  lemma LookupsPush(log: seq<Event>, e: Event, a: Addr)
    ensures Lookups(log + [e], a)
         == Lookups(log, a) + if e.Received? && e.at == a && e.hop != TtlZero then [e.sig] else []
    ensures forall sig :: Acceptances(log + [e], a, sig)
                          == Acceptances(log, a, sig) + (if AcceptedAt(e, a, sig) then 1 else 0)
  {
    assert (log + [e])[..|log|] == log;
  }

  /** One more lookup: the cache and its misses move together. */
  lemma AfterPush(capacity: nat, ids: seq<Sig>, id: Sig)
    requires capacity > 0
    ensures var s := FC.After(capacity, NO_SIG, ids);
            && FC.After(capacity, NO_SIG, ids + [id]) == FC.Lookup(s, id)
            && FC.Misses(capacity, NO_SIG, ids + [id])
               == FC.Misses(capacity, NO_SIG, ids) + if id in s.members then [] else [id]
  {
    assert (ids + [id])[..|ids|] == ids;
  }

  ghost predicate NodeOk(cache: FC.State<Sig>, log: seq<Event>, a: Addr, capacity: nat)
    requires capacity > 0
  {
    && cache == FC.After(capacity, NO_SIG, Lookups(log, a))
    && forall sig :: Acceptances(log, a, sig)
                     == multiset(FC.Misses(capacity, NO_SIG, Lookups(log, a)))[sig]
  }

  /** The node that receives a packet. */
  lemma ReceiverOk(deviceId: Id, cache: FC.State<Sig>, log: seq<Event>, a: Addr, pkt: Packet,
                   fanout: nat, capacity: nat)
    requires capacity > 0 && NodeOk(cache, log, a, capacity)
    ensures |cache.list| > 0
    ensures NodeOk(CacheAfter(cache, pkt), log + [Received(a, pkt.sig, pkt.receiver, pkt.ttl, HopOf(deviceId, cache, pkt), fanout)],
                   a, capacity)
  {
    hide FC.After, FC.Misses, FC.Lookup, Lookups, Acceptances;
    var hop := HopOf(deviceId, cache, pkt);
    var ids := Lookups(log, a);
    var misses := FC.Misses(capacity, NO_SIG, ids);
    LookupsPush(log, Received(a, pkt.sig, pkt.receiver, pkt.ttl, hop, fanout), a);
    if hop == TtlZero {
      assert ids + [] == ids;
    } else {
      AfterPush(capacity, ids, pkt.sig);
      if hop == Duplicate {
        assert misses + [] == misses;
      } else {
        forall sig
          ensures multiset(misses + [pkt.sig])[sig] == multiset(misses)[sig] + if sig == pkt.sig then 1 else 0
        {
        }
      }
    }
  }

  /** Any other node: the event is not about it. */
  lemma BystanderOk(cache: FC.State<Sig>, log: seq<Event>, e: Event, a: Addr, capacity: nat)
    requires capacity > 0 && NodeOk(cache, log, a, capacity) && (e.Received? ==> e.at != a)
    ensures NodeOk(cache, log + [e], a, capacity)
  {
    hide FC.After, FC.Misses, Lookups, Acceptances;
    LookupsPush(log, e, a);
    assert Lookups(log, a) + [] == Lookups(log, a);
  }

  lemma DeliverCaches(net: Net, net': Net, i: nat, sends: seq<Addr>, n: nat, capacity: nat)
    requires capacity > 0 && CachesOk(net, capacity) && Next(net, net', Deliver(i, sends), n)
    ensures CachesOk(net', capacity)
  {
    hide NodeOk, HopOf, CacheAfter, Targets, Tasks, Without;
    var Copy(at, pkt) := net.wire[i];
    forall a | a in net'.nodes
      ensures NodeOk(net'.nodes[a].cache, net'.log, a, capacity)
    {
      if a == at {
        ReceiverOk(net.nodes[a].deviceId, net.nodes[a].cache, net.log, a, pkt, |sends|, capacity);
      } else {
        BystanderOk(net.nodes[a].cache, net.log, net'.log[|net.log|], a, capacity);
      }
    }
  }

  lemma StepCaches(net: Net, net': Net, step: Step, n: nat, capacity: nat)
    requires capacity > 0 && CachesOk(net, capacity) && Next(net, net', step, n)
    ensures CachesOk(net', capacity)
  {
    match step
    case Deliver(i, sends) => DeliverCaches(net, net', i, sends, n, capacity);
    case Reroute(_, _) =>
    case _ =>
      forall a | a in net.nodes
        ensures NodeOk(net'.nodes[a].cache, net'.log, a, capacity)
      {
        BystanderOk(net.nodes[a].cache, net.log, net'.log[|net.log|], a, capacity);
      }
  }

  lemma StepLog(net: Net, net': Net, step: Step, n: nat)
    requires BudgetOk(net, n) && LogOk(net, n) && Next(net, net', step, n)
    ensures LogOk(net', n)
  {
    if step.Deliver? {
      FanoutBounded(net, net', step.i, step.sends, n);
    }
  }

  lemma {:induction false} RunsKeepCaches(run: seq<Net>, capacity: nat, n: nat)
    requires capacity > 0 && IsRun(run, capacity, n)
    ensures var net := run[|run| - 1];
            BudgetOk(net, n) && CachesOk(net, capacity) && LogOk(net, n)
    decreases |run|
  {
    if |run| > 1 {
      RunsKeepCaches(run[..|run| - 1], capacity, n);
      var step :| Next(run[|run| - 2], run[|run| - 1], step, n);
      StepBudget(run[|run| - 2], run[|run| - 1], step, n);
      StepCaches(run[|run| - 2], run[|run| - 1], step, n, capacity);
      StepLog(run[|run| - 2], run[|run| - 1], step, n);
    }
  }

  /** The signatures that reach the node at a fit in its cache, and none is empty. */
  ghost predicate FewSignatures(log: seq<Event>, a: Addr, capacity: nat) {
    exists universe: set<Sig> :: |universe| <= capacity && SeesOnly(log, a, universe)
  }

  ghost predicate SeesOnly(log: seq<Event>, a: Addr, universe: set<Sig>) {
    NO_SIG !in universe && forall s :: s in Lookups(log, a) ==> s in universe
  }

  ghost predicate FewEverywhere(net: Net, capacity: nat) {
    forall a :: a in net.nodes ==> FewSignatures(net.log, a, capacity)
  }

  /** A node that sees no more signatures than its cache holds forwards or handles each of
      them at most once in the whole run. */
  lemma AcceptsOnce(run: seq<Net>, capacity: nat, n: nat, a: Addr, sig: Sig)
    requires capacity > 0 && IsRun(run, capacity, n)
    requires a in run[|run| - 1].nodes && FewSignatures(run[|run| - 1].log, a, capacity)
    ensures Acceptances(run[|run| - 1].log, a, sig) <= 1
  {
    RunsKeepCaches(run, capacity, n);
    var log := run[|run| - 1].log;
    var ids := Lookups(log, a);
    var m := FC.Misses(capacity, NO_SIG, ids);
    var universe: set<Sig> :| |universe| <= capacity && SeesOnly(log, a, universe);
    forall i, j | 0 <= i < j < |m|
      ensures m[i] != m[j]
    {
      FC.NoSecondMiss(capacity, NO_SIG, ids, universe, i, j);
    }
    DistinctOnce(m, sig);
  }

  lemma {:induction false} DistinctOnce<T>(s: seq<T>, x: T)
    requires forall i, j :: 0 <= i < j < |s| ==> s[i] != s[j]
    ensures multiset(s)[x] <= 1
    decreases |s|
  {
    if s != [] {
      var m := |s| - 1;
      DistinctOnce(s[..m], x);
      assert s == s[..m] + [s[m]];
      if s[m] == x {
        assert x !in s[..m];
      }
    }
  }

  /** Even without any help from the caches, a packet becomes at most n copies per delivery,
      so its sends are bounded like its deliveries. */
  lemma {:induction false} CopiesPerDelivery(log: seq<Event>, sig: Sig, n: nat)
    requires forall k :: 0 <= k < |log| && log[k].Received? ==> log[k].fanout <= n
    ensures CopiesMade(log, sig) <= Originations(log, sig) + Deliveries(log, sig) * n
    decreases |log|
  {
    if log != [] {
      CopiesPerDelivery(log[..|log| - 1], sig, n);
      var d := Deliveries(log[..|log| - 1], sig);
      assert (d + 1) * n == d * n + n;
    }
  }

  lemma CopiesBounded(run: seq<Net>, capacity: nat, sig: Sig, n: nat)
    requires capacity > 0 && IsRun(run, capacity, n)
    ensures var log := run[|run| - 1].log;
            CopiesMade(log, sig) <= Originations(log, sig) * (1 + Pow(n + 1, 9) * n)
  {
    hide Pow, Potential, Deliveries, Originations, CopiesMade, CachesOk, Next;
    var log := run[|run| - 1].log;
    RunsKeepCaches(run, capacity, n);
    FloodingTerminates(run, capacity, sig, n);
    CopiesPerDelivery(log, sig, n);
    var o, p := Originations(log, sig), Pow(n + 1, 9);
    MulMono(Deliveries(log, sig), o * p, n);
    Distribute(o, p, n);
  }

  lemma Distribute(o: nat, p: nat, n: nat)
    ensures o * (1 + p * n) == o + (o * p) * n
  {
    assert o * (p * n) == (o * p) * n;
  }

  // ----- every step that moves a copy -----

  /** The transmissions, failures, losses and deliveries of copies of sig. */
  ghost function Moves(log: seq<Event>, sig: Sig): nat
    decreases |log|
  {
    if log == [] then 0
    else
      var e := log[|log| - 1];
      Moves(log[..|log| - 1], sig) + if e.sig == sig && !e.Originated? then 1 else 0
  }

  /** How many steps the copies of sig in flight can still take: two for a submitted copy,
      one for a copy on the wire. At n = 0 every copy has potential 1. */
  ghost function MovesLeft(net: Net, sig: Sig): nat {
    2 * Potential(net.tasks, sig, 0, 1) + Potential(net.wire, sig, 0, 0)
  }

  lemma MovesPush(log: seq<Event>, e: Event, sig: Sig)
    ensures Moves(log + [e], sig) == Moves(log, sig) + if e.sig == sig && !e.Originated? then 1 else 0
    ensures CopiesMade(log + [e], sig)
         == CopiesMade(log, sig)
            + if e.Originated? && e.sig == sig then 1 else if e.Received? && e.sig == sig then e.fanout else 0
  {
    assert (log + [e])[..|log|] == log;
  }

  lemma {:induction false} PowOne(k: nat)
    ensures Pow(1, k) == 1
    decreases k
  {
    if k > 0 {
      PowOne(k - 1);
    }
  }

  lemma UnitPotential(c: Copy, sig: Sig, early: nat)
    ensures CopyPotential(c, sig, 0, early) == if c.pkt.sig == sig && c.pkt.ttl >= early then 1 else 0
  {
    if c.pkt.ttl >= early {
      PowOne(c.pkt.ttl - early);
    }
  }

  lemma UnitPotentialOfTasks(sends: seq<Addr>, pkt: Packet, sig: Sig)
    requires pkt.ttl == 0 ==> sends == []
    ensures Potential(Tasks(sends, pkt), sig, 0, 1) == if pkt.sig == sig then |sends| else 0
  {
    if pkt.ttl == 0 {
      assert Tasks(sends, pkt) == [];
    } else {
      PotentialOfTasks(sends, pkt, sig, 0);
      PowOne(pkt.ttl - 1);
    }
  }

  /** Every copy made pays for two moves. */
  lemma StepMoves(net: Net, net': Net, step: Step, sig: Sig, n: nat)
    requires BudgetOk(net, n) && Next(net, net', step, n)
    requires Moves(net.log, sig) + MovesLeft(net, sig) <= 2 * CopiesMade(net.log, sig)
    ensures Moves(net'.log, sig) + MovesLeft(net', sig) <= 2 * CopiesMade(net'.log, sig)
  {
    hide Potential, CopyPotential, Pow, Moves, CopiesMade, Targets, Tasks, Without, HopOf, CacheAfter, FC.Lookup;
    if !step.Reroute? {
      MovesPush(net.log, net'.log[|net.log|], sig);
    }
    match step
    case Originate(s, receiver, dest) =>
      var c := Copy(dest, Packet(s, receiver, INITIAL_TTL));
      PotentialPush(net.tasks, c, sig, 0, 1);
      UnitPotential(c, sig, 1);
    case Transmit(i) =>
      var c := net.tasks[i];
      var sent := c.(pkt := c.pkt.(ttl := Decrement(c.pkt.ttl)));
      PotentialWithout(net.tasks, i, sig, 0, 1);
      PotentialPush(net.wire, sent, sig, 0, 0);
      UnitPotential(c, sig, 1);
      UnitPotential(sent, sig, 0);
    case Fail(i) =>
      PotentialWithout(net.tasks, i, sig, 0, 1);
      UnitPotential(net.tasks[i], sig, 1);
    case Lose(i) =>
      PotentialWithout(net.wire, i, sig, 0, 0);
      UnitPotential(net.wire[i], sig, 0);
    case Reroute(_, _) =>
    case Deliver(i, sends) =>
      var c := net.wire[i];
      PotentialWithout(net.wire, i, sig, 0, 0);
      UnitPotential(c, sig, 0);
      PotentialConcat(net.tasks, Tasks(sends, c.pkt), sig, 0, 1);
      FanoutBounded(net, net', i, sends, n);
      UnitPotentialOfTasks(sends, c.pkt, sig);
  }

  lemma {:induction false} RunsMove(run: seq<Net>, capacity: nat, sig: Sig, n: nat)
    requires IsRun(run, capacity, n)
    ensures var net := run[|run| - 1];
            BudgetOk(net, n) && Moves(net.log, sig) + MovesLeft(net, sig) <= 2 * CopiesMade(net.log, sig)
    decreases |run|
  {
    if |run| > 1 {
      RunsMove(run[..|run| - 1], capacity, sig, n);
      var step :| Next(run[|run| - 2], run[|run| - 1], step, n);
      StepBudget(run[|run| - 2], run[|run| - 1], step, n);
      StepMoves(run[|run| - 2], run[|run| - 1], step, sig, n);
    }
  }

  /** All activity about a packet ends: its transmissions, failures, losses and deliveries
      together are bounded in every run, for each time it was sent. */
  lemma MovesBounded(run: seq<Net>, capacity: nat, sig: Sig, n: nat)
    requires capacity > 0 && IsRun(run, capacity, n)
    ensures var log := run[|run| - 1].log;
            Moves(log, sig) <= 2 * Originations(log, sig) * (1 + Pow(n + 1, 9) * n)
  {
    hide Pow, Potential, Originations, CopiesMade, Moves, Next;
    RunsMove(run, capacity, sig, n);
    CopiesBounded(run, capacity, sig, n);
    TwiceProduct(Originations(run[|run| - 1].log, sig), 1 + Pow(n + 1, 9) * n);
  }

  lemma TwiceProduct(o: nat, p: nat)
    ensures 2 * (o * p) == 2 * o * p
  {
  }

  /** The nodes that accepted sig. */
  ghost function Acceptors(log: seq<Event>, sig: Sig): set<Addr>
    decreases |log|
  {
    if log == [] then {}
    else
      var e := log[|log| - 1];
      Acceptors(log[..|log| - 1], sig) + if e.Received? && AcceptedAt(e, e.at, sig) then {e.at} else {}
  }

  lemma {:induction false} AcceptorsCounted(log: seq<Event>, sig: Sig, a: Addr)
    ensures a in Acceptors(log, sig) <==> Acceptances(log, a, sig) > 0
    decreases |log|
  {
    if log != [] {
      AcceptorsCounted(log[..|log| - 1], sig, a);
    }
  }

  lemma NewAcceptor(log: seq<Event>, sig: Sig)
    requires log != [] && log[|log| - 1].Received? && AcceptedAt(log[|log| - 1], log[|log| - 1].at, sig)
    requires Acceptances(log, log[|log| - 1].at, sig) <= 1
    ensures |Acceptors(log, sig)| == |Acceptors(log[..|log| - 1], sig)| + 1
  {
    var before, e := log[..|log| - 1], log[|log| - 1];
    assert Acceptances(log, e.at, sig) == Acceptances(before, e.at, sig) + 1;
    AcceptorsCounted(before, sig, e.at);
    assert e.at !in Acceptors(before, sig);
    assert Acceptors(log, sig) == Acceptors(before, sig) + {e.at};
  }

  lemma {:induction false} CopiesCounted(log: seq<Event>, sig: Sig, n: nat)
    requires forall k :: 0 <= k < |log| && log[k].Received? ==>
               log[k].fanout <= n && (log[k].fanout > 0 ==> log[k].hop.Accepted())
    requires forall a :: Acceptances(log, a, sig) <= 1
    ensures CopiesMade(log, sig) <= Originations(log, sig) + |Acceptors(log, sig)| * n
    decreases |log|
  {
    if log != [] {
      hide Acceptors, AcceptedAt;
      var before, e := log[..|log| - 1], log[|log| - 1];
      forall a
        ensures Acceptances(before, a, sig) <= 1
      {
        assert Acceptances(log, a, sig) <= 1;
      }
      CopiesCounted(before, sig, n);
      if e.Received? && AcceptedAt(e, e.at, sig) {
        NewAcceptor(log, sig);
        MulPush(|Acceptors(before, sig)|, n);
      } else {
        SameAcceptors(log, sig);
      }
    } else {
      assert CopiesMade(log, sig) == 0;
    }
  }

  lemma MulPush(a: nat, n: nat)
    ensures (a + 1) * n == a * n + n
  {
  }

  lemma SameAcceptors(log: seq<Event>, sig: Sig)
    requires log != []
    requires var e := log[|log| - 1]; !(e.Received? && AcceptedAt(e, e.at, sig))
    ensures Acceptors(log, sig) == Acceptors(log[..|log| - 1], sig)
    ensures var e := log[|log| - 1];
            e.Received? && e.sig == sig ==> !e.hop.Accepted()
  {
  }

  lemma {:induction false} AcceptorsAreNodes(log: seq<Event>, sig: Sig, nodes: set<Addr>)
    requires forall k :: 0 <= k < |log| && log[k].Received? ==> log[k].at in nodes
    ensures Acceptors(log, sig) <= nodes
    decreases |log|
  {
    if log != [] {
      AcceptorsAreNodes(log[..|log| - 1], sig, nodes);
    }
  }

  lemma {:induction false} NoAcceptance(log: seq<Event>, a: Addr, sig: Sig)
    requires forall k :: 0 <= k < |log| && log[k].Received? ==> log[k].at != a
    ensures Acceptances(log, a, sig) == 0
    decreases |log|
  {
    if log != [] {
      NoAcceptance(log[..|log| - 1], a, sig);
    }
  }

  /** Duplicate suppression: when no node sees more signatures than its cache holds, one
      packet becomes at most n copies per node, on top of those it was sent as. */
  lemma FewCopies(run: seq<Net>, capacity: nat, n: nat, sig: Sig)
    requires capacity > 0 && IsRun(run, capacity, n)
    requires FewEverywhere(run[|run| - 1], capacity)
    ensures var net := run[|run| - 1];
            CopiesMade(net.log, sig) <= Originations(net.log, sig) + |net.nodes| * n
  {
    var net := run[|run| - 1];
    RunsKeepCaches(run, capacity, n);
    forall a
      ensures Acceptances(net.log, a, sig) <= 1
    {
      if a in net.nodes {
        AcceptsOnce(run, capacity, n, a, sig);
      } else {
        NoAcceptance(net.log, a, sig);
      }
    }
    CopiesCounted(net.log, sig, n);
    AcceptorsAreNodes(net.log, sig, net.nodes.Keys);
    SubsetSmaller(Acceptors(net.log, sig), net.nodes.Keys);
    assert |net.nodes| == |net.nodes.Keys|;
    MulMono(|Acceptors(net.log, sig)|, |net.nodes|, n);
  }

  lemma {:induction false} SubsetSmaller<T>(a: set<T>, b: set<T>)
    requires a <= b
    ensures |a| <= |b|
  {
    if a != {} {
      var x :| x in a;
      SubsetSmaller(a - {x}, b - {x});
    }
  }

  lemma MulMono(a: nat, b: nat, n: nat)
    requires a <= b
    ensures a * n <= b * n
  {
  }

  // ----- where packets end -----

  /** Who may have done what: only the receiver of a packet handles it and only another node
      forwards it; copies that arrive are within the hop budget. */
  ghost predicate EventOk(net: Net, e: Event) {
    e.Received? ==>
      && e.at in net.nodes && e.ttl <= 9
      && (e.hop == TtlZero <==> e.ttl == 0)
      && (e.hop == Handled ==> net.nodes[e.at].deviceId == e.receiver)
      && (e.hop == Forwarded ==> net.nodes[e.at].deviceId != e.receiver)
      && (e.fanout > 0 ==> e.hop == Forwarded)
  }

  ghost predicate EventsOk(net: Net) {
    forall e :: e in net.log ==> EventOk(net, e)
  }

  lemma StepEvents(net: Net, net': Net, step: Step, n: nat)
    requires BudgetOk(net, n) && EventsOk(net) && Next(net, net', step, n)
    ensures EventsOk(net')
  {
    hide Targets, Tasks, Without, CacheAfter;
    forall e | e in net'.log
      ensures EventOk(net', e)
    {
      if e in net.log {
        assert EventOk(net, e);
      } else {
        assert e == net'.log[|net.log|];
      }
    }
  }

  lemma {:induction false} RunsKeepEvents(run: seq<Net>, capacity: nat, n: nat)
    requires IsRun(run, capacity, n)
    ensures BudgetOk(run[|run| - 1], n) && EventsOk(run[|run| - 1])
    decreases |run|
  {
    if |run| > 1 {
      RunsKeepEvents(run[..|run| - 1], capacity, n);
      var step :| Next(run[|run| - 2], run[|run| - 1], step, n);
      StepBudget(run[|run| - 2], run[|run| - 1], step, n);
      StepEvents(run[|run| - 2], run[|run| - 1], step, n);
    }
  }

  /** A walk of k links from one address to another. */
  ghost predicate Walk(links: set<(Addr, Addr)>, a: Addr, b: Addr, k: nat)
    decreases k
  {
    if k == 0 then a == b else exists m :: Walk(links, a, m, k - 1) && (m, b) in links
  }

  /** All routing entries of the net are among links. */
  ghost predicate Linked(net: Net, links: set<(Addr, Addr)>) {
    forall a, d :: a in net.nodes && d in net.nodes[a].routes ==> (a, net.nodes[a].routes[d].addr) in links
  }

  /** A copy with spent hops behind it lies as many links from where its packet was sent. */
  ghost predicate Near(log: seq<Event>, links: set<(Addr, Addr)>, at: Addr, sig: Sig, receiver: Id, spent: int) {
    exists dest :: Originated(sig, receiver, dest) in log && spent >= 0 && Walk(links, dest, at, spent)
  }

  ghost predicate EventNear(log: seq<Event>, links: set<(Addr, Addr)>, e: Event) {
    e.Received? ==> Near(log, links, e.at, e.sig, e.receiver, 9 - e.ttl)
  }

  ghost predicate AllNear(net: Net, links: set<(Addr, Addr)>) {
    && (forall c :: c in net.tasks ==> Near(net.log, links, c.dest, c.pkt.sig, c.pkt.receiver, 10 - c.pkt.ttl))
    && (forall c :: c in net.wire ==> Near(net.log, links, c.dest, c.pkt.sig, c.pkt.receiver, 9 - c.pkt.ttl))
    && (forall e :: e in net.log ==> EventNear(net.log, links, e))
  }

  ghost predicate RunLinked(run: seq<Net>, links: set<(Addr, Addr)>) {
    forall k :: 0 <= k < |run| ==> Linked(run[k], links)
  }

  lemma NearStays(log: seq<Event>, log': seq<Event>, links: set<(Addr, Addr)>, at: Addr, sig: Sig,
                  receiver: Id, spent: int)
    requires log <= log' && Near(log, links, at, sig, receiver, spent)
    ensures Near(log', links, at, sig, receiver, spent)
  {
    var dest :| Originated(sig, receiver, dest) in log && spent >= 0 && Walk(links, dest, at, spent);
    assert Originated(sig, receiver, dest) in log';
  }

  lemma NearNext(log: seq<Event>, links: set<(Addr, Addr)>, at: Addr, next: Addr, sig: Sig, receiver: Id, spent: int)
    requires Near(log, links, at, sig, receiver, spent) && (at, next) in links
    ensures Near(log, links, next, sig, receiver, spent + 1)
  {
    var dest :| Originated(sig, receiver, dest) in log && spent >= 0 && Walk(links, dest, at, spent);
    assert Walk(links, dest, next, spent + 1);
  }

  /** Every target of a packet is the address of some entry. */
  lemma TargetsLinked(routes: Routes, pkt: Packet, sends: seq<Addr>, a: Addr)
    requires Targets(routes, pkt, sends) && a in sends
    ensures exists d :: d in routes && routes[d].addr == a
  {
    TargetsExact(routes, pkt, sends, a);
    if pkt.ttl < 2 || pkt.receiver !in routes {
      assert Holders(routes.Keys, routes, a) != {};
      var d :| d in Holders(routes.Keys, routes, a);
    }
  }

  lemma NetStays(net: Net, log: seq<Event>, links: set<(Addr, Addr)>)
    requires AllNear(net, links) && net.log <= log
    ensures forall c :: c in net.tasks ==> Near(log, links, c.dest, c.pkt.sig, c.pkt.receiver, 10 - c.pkt.ttl)
    ensures forall c :: c in net.wire ==> Near(log, links, c.dest, c.pkt.sig, c.pkt.receiver, 9 - c.pkt.ttl)
    ensures forall e :: e in net.log ==> EventNear(log, links, e)
  {
    hide Near;
    forall c | c in net.tasks
      ensures Near(log, links, c.dest, c.pkt.sig, c.pkt.receiver, 10 - c.pkt.ttl)
    {
      NearStays(net.log, log, links, c.dest, c.pkt.sig, c.pkt.receiver, 10 - c.pkt.ttl);
    }
    forall c | c in net.wire
      ensures Near(log, links, c.dest, c.pkt.sig, c.pkt.receiver, 9 - c.pkt.ttl)
    {
      NearStays(net.log, log, links, c.dest, c.pkt.sig, c.pkt.receiver, 9 - c.pkt.ttl);
    }
    forall e | e in net.log
      ensures EventNear(log, links, e)
    {
      assert EventNear(net.log, links, e);
      if e.Received? {
        NearStays(net.log, log, links, e.at, e.sig, e.receiver, 9 - e.ttl);
      }
    }
  }

  lemma WithoutIsPart<T>(s: seq<T>, i: nat, x: T)
    requires i < |s| && x in Without(s, i)
    ensures x in s
  {
  }

  /** A submitted copy was there before, starts its journey, or continues that of the copy
      that was delivered. */
  lemma NewTask(net: Net, net': Net, step: Step, n: nat, c: Copy)
    requires Next(net, net', step, n) && c in net'.tasks && c !in net.tasks
    ensures step.Originate? || step.Deliver?
    ensures step.Originate? ==> c == Copy(step.dest, Packet(step.sig, step.receiver, INITIAL_TTL))
                                && Originated(step.sig, step.receiver, step.dest) in net'.log
    ensures step.Deliver? ==> c.pkt == net.wire[step.i].pkt && c.dest in step.sends
  {
    hide Targets, HopOf, CacheAfter, Without;
    if step.Transmit? || step.Fail? {
      WithoutIsPart(net.tasks, step.i, c);
    }
    if step.Originate? {
      assert net'.log[|net.log|] in net'.log;
    }
  }

  lemma NewWire(net: Net, net': Net, step: Step, n: nat, c: Copy)
    requires BudgetOk(net, n) && Next(net, net', step, n) && c in net'.wire && c !in net.wire
    ensures step.Transmit? && c.dest == net.tasks[step.i].dest
            && c.pkt == net.tasks[step.i].pkt.(ttl := net.tasks[step.i].pkt.ttl - 1)
  {
    hide Targets, HopOf, CacheAfter, Without, Tasks;
    if step.Deliver? || step.Lose? {
      WithoutIsPart(net.wire, step.i, c);
    }
  }

  lemma TaskNear(net: Net, net': Net, step: Step, n: nat, links: set<(Addr, Addr)>, c: Copy)
    requires AllNear(net, links) && Linked(net, links) && Next(net, net', step, n) && net.log <= net'.log
    requires c in net'.tasks
    ensures Near(net'.log, links, c.dest, c.pkt.sig, c.pkt.receiver, 10 - c.pkt.ttl)
  {
    hide Near, Targets, HopOf, CacheAfter, EventNear, Linked, Without, Tasks;
    NetStays(net, net'.log, links);
    if c !in net.tasks {
      NewTask(net, net', step, n, c);
      match step
      case Originate(sig, receiver, dest) =>
        NearStart(net'.log, links, sig, receiver, dest);
      case Deliver(i, sends) =>
        var Copy(at, pkt) := net.wire[i];
        SendsLinked(net, net', i, sends, n, links, c.dest);
        NearNext(net'.log, links, at, c.dest, pkt.sig, pkt.receiver, 9 - pkt.ttl);
    }
  }

  lemma WireNear(net: Net, net': Net, step: Step, n: nat, links: set<(Addr, Addr)>, c: Copy)
    requires BudgetOk(net, n) && AllNear(net, links) && Next(net, net', step, n) && net.log <= net'.log
    requires c in net'.wire
    ensures Near(net'.log, links, c.dest, c.pkt.sig, c.pkt.receiver, 9 - c.pkt.ttl)
  {
    hide Near, Targets, HopOf, CacheAfter, EventNear, Without, Tasks;
    NetStays(net, net'.log, links);
    if c !in net.wire {
      NewWire(net, net', step, n, c);
      assert net.tasks[step.i] in net.tasks;
    }
  }

  lemma LogGrows(net: Net, net': Net, step: Step, n: nat)
    requires Next(net, net', step, n)
    ensures net.log <= net'.log
    ensures !step.Deliver? ==>
              net'.log == net.log
              || (|net'.log| == |net.log| + 1 && net.log <= net'.log && !net'.log[|net.log|].Received?)
  {
    hide Targets, HopOf, CacheAfter, Without, Tasks;
  }

  lemma StepNear(net: Net, net': Net, step: Step, n: nat, links: set<(Addr, Addr)>)
    requires BudgetOk(net, n) && AllNear(net, links) && Linked(net, links) && Next(net, net', step, n)
    ensures AllNear(net', links)
  {
    hide Near, EventNear, Linked, Next, BudgetOk;
    LogGrows(net, net', step, n);
    NetStays(net, net'.log, links);
    forall c | c in net'.tasks
      ensures Near(net'.log, links, c.dest, c.pkt.sig, c.pkt.receiver, 10 - c.pkt.ttl)
    {
      TaskNear(net, net', step, n, links, c);
    }
    forall c | c in net'.wire
      ensures Near(net'.log, links, c.dest, c.pkt.sig, c.pkt.receiver, 9 - c.pkt.ttl)
    {
      WireNear(net, net', step, n, links, c);
    }
    if step.Deliver? {
      NearReceived(net, net', step.i, step.sends, n, links);
    } else {
      NearOther(net, net', links);
    }
  }

  lemma NearStart(log: seq<Event>, links: set<(Addr, Addr)>, sig: Sig, receiver: Id, dest: Addr)
    requires Originated(sig, receiver, dest) in log
    ensures Near(log, links, dest, sig, receiver, 0)
  {
    assert Walk(links, dest, dest, 0);
  }

  /** A step that receives nothing logs nothing to place. */
  lemma NearOther(net: Net, net': Net, links: set<(Addr, Addr)>)
    requires net'.log == net.log || (|net'.log| == |net.log| + 1 && net.log <= net'.log && !net'.log[|net.log|].Received?)
    requires forall e :: e in net.log ==> EventNear(net'.log, links, e)
    ensures forall e :: e in net'.log ==> EventNear(net'.log, links, e)
  {
    hide Near;
  }

  lemma NearReceived(net: Net, net': Net, i: nat, sends: seq<Addr>, n: nat, links: set<(Addr, Addr)>)
    requires Next(net, net', Deliver(i, sends), n)
    requires forall e :: e in net.log ==> EventNear(net'.log, links, e)
    requires forall c :: c in net.wire ==> Near(net'.log, links, c.dest, c.pkt.sig, c.pkt.receiver, 9 - c.pkt.ttl)
    ensures forall e :: e in net'.log ==> EventNear(net'.log, links, e)
  {
    hide Near, Targets, HopOf, CacheAfter, Tasks, Without;
    assert net.wire[i] in net.wire;
    assert EventNear(net'.log, links, net'.log[|net.log|]);
  }

  lemma SendsLinked(net: Net, net': Net, i: nat, sends: seq<Addr>, n: nat, links: set<(Addr, Addr)>, a: Addr)
    requires Linked(net, links) && Next(net, net', Deliver(i, sends), n) && a in sends
    ensures (net.wire[i].dest, a) in links
  {
    hide Targets, CacheAfter, Tasks, Without;
    var Copy(at, pkt) := net.wire[i];
    TargetsLinked(net.nodes[at].routes, pkt, sends, a);
  }

  /** A packet arrives at most 9 links away from where it was sent, and as many links away as
      its copy has hops spent: in every run over tables within links. */
  lemma {:induction false} RunsStayNear(run: seq<Net>, capacity: nat, n: nat, links: set<(Addr, Addr)>)
    requires IsRun(run, capacity, n) && RunLinked(run, links)
    ensures BudgetOk(run[|run| - 1], n) && AllNear(run[|run| - 1], links)
    decreases |run|
  {
    if |run| > 1 {
      RunsStayNear(run[..|run| - 1], capacity, n, links);
      var net, net' := run[|run| - 2], run[|run| - 1];
      var step :| Next(net, net', step, n);
      assert Linked(net, links);
      StepBudget(net, net', step, n);
      StepNear(net, net', step, n, links);
    }
  }

  ghost predicate WithinHops(log: seq<Event>, links: set<(Addr, Addr)>, e: Event, most: nat)
    requires e.Received?
  {
    exists dest, k: nat :: k <= most && Originated(e.sig, e.receiver, dest) in log && Walk(links, dest, e.at, k)
  }

  /** Ten hops are one too many: a packet is forwarded or handled only within 8 links of the
      node it was sent to, and no copy gets further than 9. */
  lemma AcceptedNear(run: seq<Net>, capacity: nat, n: nat, links: set<(Addr, Addr)>, e: Event)
    requires IsRun(run, capacity, n) && RunLinked(run, links) && e in run[|run| - 1].log && e.Received?
    ensures WithinHops(run[|run| - 1].log, links, e, if e.hop.Accepted() then 8 else 9)
  {
    var net := run[|run| - 1];
    RunsStayNear(run, capacity, n, links);
    RunsKeepEvents(run, capacity, n);
    assert EventOk(net, e) && EventNear(net.log, links, e);
    var dest :| Originated(e.sig, e.receiver, dest) in net.log && Walk(links, dest, e.at, 9 - e.ttl);
  }

  /** Only its receiver ever handles a packet, only other nodes forward it, and the receiver
      is the one it was sent with. */
  lemma HandledByReceiver(run: seq<Net>, capacity: nat, n: nat, e: Event)
    requires IsRun(run, capacity, n) && e in run[|run| - 1].log && e.Received?
    ensures var net := run[|run| - 1];
            && e.at in net.nodes
            && (e.hop == Handled ==> net.nodes[e.at].deviceId == e.receiver)
            && (e.hop == Forwarded ==> net.nodes[e.at].deviceId != e.receiver)
            && (e.hop == TtlZero <==> e.ttl == 0)
            && (e.fanout > 0 ==> e.hop == Forwarded)
            && exists dest :: Originated(e.sig, e.receiver, dest) in net.log
  {
    var net := run[|run| - 1];
    RunsKeepEvents(run, capacity, n);
    assert EventOk(net, e);
    AcceptedNear(run, capacity, n, AllLinks(run), e);
  }

  ghost function AllLinks(run: seq<Net>): set<(Addr, Addr)> {
    set k, a, d | 0 <= k < |run| && a in run[k].nodes && d in run[k].nodes[a].routes ::
      (a, run[k].nodes[a].routes[d].addr)
  }

  /** send_pkg leaves the receiver empty; a packet sent so is never handled by a node whose
      device id is not empty, whatever the routes, the caches and the interleaving. */
  lemma UnaddressedNeverHandled(run: seq<Net>, capacity: nat, n: nat, e: Event)
    requires IsRun(run, capacity, n) && e in run[|run| - 1].log && e.Received?
    requires forall o :: o in run[|run| - 1].log && o.Originated? && o.sig == e.sig ==> o.receiver == ""
    requires e.at in run[|run| - 1].nodes ==> run[|run| - 1].nodes[e.at].deviceId != ""
    ensures e.hop != Handled
  {
    HandledByReceiver(run, capacity, n, e);
  }

  // ----- packets do arrive -----

  /** The tables lead from node to node of path to the receiver, and no cache on the way
      holds sig. Where a node has a route to the receiver, the path follows it. */
  ghost predicate Path(net: Net, sig: Sig, receiver: Id, path: seq<Addr>) {
    && path != []
    && (forall i, j :: 0 <= i < j < |path| ==> path[i] != path[j])
    && (forall i :: 0 <= i < |path| ==> path[i] in net.nodes && sig !in net.nodes[path[i]].cache.members)
    && (forall i :: 0 <= i < |path| - 1 ==> Leads(net.nodes[path[i]], receiver, path[i + 1]))
    && net.nodes[path[|path| - 1]].deviceId == receiver
  }

  ghost predicate Leads(node: Node, receiver: Id, next: Addr) {
    && node.deviceId != receiver
    && if receiver in node.routes then node.routes[receiver].addr == next
       else exists d :: d in node.routes && node.routes[d].addr == next
  }

  /** Every node before the receiver has a route to it. */
  ghost predicate Routed(net: Net, receiver: Id, path: seq<Addr>) {
    forall i :: 0 <= i < |path| - 1 ==> path[i] in net.nodes && receiver in net.nodes[path[i]].routes
  }

  /** What a copy that travels path, one send per node, leaves in the log. */
  ghost function Trace(sig: Sig, receiver: Id, path: seq<Addr>, ttl: uint32): seq<Event>
    requires 0 < |path| <= ttl
  {
    if |path| == 1 then [Received(path[0], sig, receiver, ttl, Handled, 0)]
    else [Received(path[0], sig, receiver, ttl, Forwarded, 1), Transmitted(sig)]
         + Trace(sig, receiver, path[1..], ttl - 1)
  }

  lemma TraceStep(sig: Sig, receiver: Id, path: seq<Addr>, ttl: uint32)
    requires 0 < |path| <= ttl
    ensures |path| == 1 ==> Trace(sig, receiver, path, ttl) == [Received(path[0], sig, receiver, ttl, Handled, 0)]
    ensures |path| > 1 ==>
              Trace(sig, receiver, path, ttl)
              == [Received(path[0], sig, receiver, ttl, Forwarded, 1), Transmitted(sig)]
                 + Trace(sig, receiver, path[1..], ttl - 1)
  {
  }

  /** run' continues run. */
  ghost predicate Continues(run: seq<Net>, run': seq<Net>, capacity: nat, n: nat) {
    IsRun(run', capacity, n) && run <= run'
  }

  lemma RunsExist(run: seq<Net>, capacity: nat, n: nat)
    requires IsRun(run, capacity, n)
    ensures run != []
  {
  }

  lemma Extend(run: seq<Net>, net': Net, step: Step, capacity: nat, n: nat)
    requires IsRun(run, capacity, n) && Next(run[|run| - 1], net', step, n)
    ensures Continues(run, run + [net'], capacity, n)
  {
    var run' := run + [net'];
    assert run'[..|run'| - 1] == run;
    assert CanStep(run'[|run'| - 2], run'[|run'| - 1], n);
  }

  /** A broadcast that goes through the whole table. */
  lemma SomeTargets(routes: Routes, pkt: Packet) returns (sends: seq<Addr>)
    ensures Targets(routes, pkt, sends)
  {
    if pkt.ttl > 1 && pkt.receiver in routes {
      sends := [routes[pkt.receiver].addr];
    } else {
      var keys := Listed(routes.Keys);
      assert Enumerates(keys, routes);
      sends := Hops(keys, routes);
    }
  }

  lemma {:induction false} Listed(s: set<Id>) returns (keys: seq<Id>)
    ensures forall k :: k in keys <==> k in s
    ensures forall i, j :: 0 <= i < j < |keys| ==> keys[i] != keys[j]
  {
    keys := [];
    if s != {} {
      var k :| k in s;
      var rest := Listed(s - {k});
      keys := rest + [k];
    }
  }

  /** A copy on the wire whose path to the receiver is open. */
  ghost predicate OnItsWay(net: Net, w: seq<Copy>, sig: Sig, receiver: Id, path: seq<Addr>, ttl: uint32) {
    && 0 < |path| <= ttl
    && Path(net, sig, receiver, path)
    && net.wire == w + [Copy(path[0], Packet(sig, receiver, ttl))]
  }

  /** The net after the node at the end of the wire has received its copy. */
  ghost function Delivered(net: Net, sends: seq<Addr>): Net
    requires net.wire != [] && net.wire[|net.wire| - 1].dest in net.nodes
    requires |net.nodes[net.wire[|net.wire| - 1].dest].cache.list| > 0
  {
    var Copy(at, pkt) := net.wire[|net.wire| - 1];
    var node := net.nodes[at];
    Net(net.nodes[at := node.(cache := CacheAfter(node.cache, pkt))],
        net.tasks + Tasks(sends, pkt),
        Without(net.wire, |net.wire| - 1),
        net.log + [Received(at, pkt.sig, pkt.receiver, pkt.ttl, HopOf(node.deviceId, node.cache, pkt), |sends|)])
  }

  ghost function Sent(net: Net, i: nat): Net
    requires i < |net.tasks|
  {
    var c := net.tasks[i];
    net.(tasks := Without(net.tasks, i),
         wire := net.wire + [c.(pkt := c.pkt.(ttl := Decrement(c.pkt.ttl)))],
         log := net.log + [Transmitted(c.pkt.sig)])
  }

  lemma CachesHold(run: seq<Net>, capacity: nat, n: nat, a: Addr)
    requires capacity > 0 && IsRun(run, capacity, n) && a in run[|run| - 1].nodes
    ensures |run[|run| - 1].nodes[a].cache.list| == capacity
  {
    RunsKeepCaches(run, capacity, n);
    assert NodeOk(run[|run| - 1].nodes[a].cache, run[|run| - 1].log, a, capacity);
  }

  /** Among the targets of a packet is the next address of its path, alone when the node has
      a route to the receiver. */
  lemma NextTarget(node: Node, pkt: Packet, next: Addr) returns (sends: seq<Addr>, j: nat)
    requires Leads(node, pkt.receiver, next) && pkt.ttl > 1
    ensures Targets(node.routes, pkt, sends) && j < |sends| && sends[j] == next
    ensures pkt.receiver in node.routes ==> sends == [next]
  {
    sends := SomeTargets(node.routes, pkt);
    if pkt.receiver in node.routes {
      j := 0;
    } else {
      TargetsExact(node.routes, pkt, sends, next);
      var d :| d in node.routes && node.routes[d].addr == next;
      assert d in Holders(node.routes.Keys, node.routes, next);
      assert next in sends;
      j :| j < |sends| && sends[j] == next;
    }
  }

  lemma PathRest(net: Net, net': Net, sig: Sig, receiver: Id, path: seq<Addr>)
    requires Path(net, sig, receiver, path) && |path| > 1
    requires forall a :: a in net.nodes && a != path[0] ==> a in net'.nodes && net'.nodes[a] == net.nodes[a]
    ensures Path(net', sig, receiver, path[1..])
    ensures Routed(net, receiver, path) ==> Routed(net', receiver, path[1..])
  {
    hide Leads;
    var rest := path[1..];
    forall i | 0 <= i < |rest|
      ensures rest[i] in net.nodes && rest[i] in net'.nodes && net'.nodes[rest[i]] == net.nodes[rest[i]]
      ensures sig !in net'.nodes[rest[i]].cache.members
    {
      assert rest[i] == path[i + 1];
    }
  }

  /** One hop: received, forwarded and put on the wire for the next node. */
  lemma Forward(run: seq<Net>, capacity: nat, n: nat, w: seq<Copy>, sig: Sig, receiver: Id, path: seq<Addr>,
                ttl: uint32) returns (run': seq<Net>)
    requires capacity > 0 && IsRun(run, capacity, n)
    requires OnItsWay(run[|run| - 1], w, sig, receiver, path, ttl) && |path| > 1
    ensures Continues(run, run', capacity, n)
    ensures OnItsWay(run'[|run'| - 1], w, sig, receiver, path[1..], ttl - 1)
    ensures run[|run| - 1].log < run'[|run'| - 1].log
    ensures var net, net' := run[|run| - 1], run'[|run'| - 1];
            Routed(net, receiver, path) ==>
              && Routed(net', receiver, path[1..])
              && net'.tasks == net.tasks
              && net'.log == net.log + [Received(path[0], sig, receiver, ttl, Forwarded, 1), Transmitted(sig)]
  {
    hide Targets, CacheAfter, Leads, IsRun, Next, OnItsWay;
    RunsExist(run, capacity, n);
    var net := run[|run| - 1];
    WayStart(net, w, sig, receiver, path, ttl);
    CachesHold(run, capacity, n, path[0]);
    var sends, j, net1, net2 := Hop(net, w, sig, receiver, path, ttl, n);
    Extend(run, net1, Deliver(|w|, sends), capacity, n);
    Extend(run + [net1], net2, Transmit(|net.tasks| + j), capacity, n);
    run' := run + [net1] + [net2];
  }

  /** The two steps of that hop. */
  lemma Hop(net: Net, w: seq<Copy>, sig: Sig, receiver: Id, path: seq<Addr>, ttl: uint32, n: nat)
    returns (sends: seq<Addr>, j: nat, net1: Net, net2: Net)
    requires OnItsWay(net, w, sig, receiver, path, ttl) && |path| > 1
    requires |net.nodes[path[0]].cache.list| > 0
    ensures Next(net, net1, Deliver(|w|, sends), n) && Next(net1, net2, Transmit(|net.tasks| + j), n)
    ensures OnItsWay(net2, w, sig, receiver, path[1..], ttl - 1)
    ensures net.log < net2.log
    ensures Routed(net, receiver, path) ==>
              && Routed(net2, receiver, path[1..])
              && net2.tasks == net.tasks
              && net2.log == net.log + [Received(path[0], sig, receiver, ttl, Forwarded, 1), Transmitted(sig)]
  {
    hide Targets, CacheAfter, Leads;
    var node, pkt := net.nodes[path[0]], Packet(sig, receiver, ttl);
    assert Leads(node, receiver, path[1]);
    LeadsAway(node, receiver, path[1]);
    sends, j := NextTarget(node, pkt, path[1]);
    net1 := Delivered(net, sends);
    assert net1.tasks[|net.tasks| + j] == Copy(path[1], pkt);
    net2 := Sent(net1, |net.tasks| + j);
    PathRest(net, net2, sig, receiver, path);
  }

  lemma WayStart(net: Net, w: seq<Copy>, sig: Sig, receiver: Id, path: seq<Addr>, ttl: uint32)
    requires OnItsWay(net, w, sig, receiver, path, ttl)
    ensures 0 < |path| <= ttl && path[0] in net.nodes
  {
  }

  lemma LeadsAway(node: Node, receiver: Id, next: Addr)
    requires Leads(node, receiver, next)
    ensures node.deviceId != receiver
  {
  }

  /** The copy at the end of its path is handled. */
  lemma Arrive(run: seq<Net>, capacity: nat, n: nat, w: seq<Copy>, sig: Sig, receiver: Id, at: Addr,
               ttl: uint32) returns (run': seq<Net>)
    requires capacity > 0 && IsRun(run, capacity, n)
    requires OnItsWay(run[|run| - 1], w, sig, receiver, [at], ttl)
    ensures Continues(run, run', capacity, n)
    ensures var net, net' := run[|run| - 1], run'[|run'| - 1];
            && net'.wire == w && net'.tasks == net.tasks
            && net'.log == net.log + [Received(at, sig, receiver, ttl, Handled, 0)]
  {
    hide Targets, CacheAfter, IsRun;
    RunsExist(run, capacity, n);
    var net := run[|run| - 1];
    assert [at][0] in net.nodes;
    CachesHold(run, capacity, n, at);
    var net' := Delivered(net, []);
    Extend(run, net', Deliver(|w|, []), capacity, n);
    run' := run + [net'];
  }

  /** A copy with enough hops left travels its path and is handled at the end of it. */
  lemma {:induction false} Carry(run: seq<Net>, capacity: nat, n: nat, w: seq<Copy>, sig: Sig, receiver: Id,
                                 path: seq<Addr>, ttl: uint32) returns (run': seq<Net>)
    requires capacity > 0 && IsRun(run, capacity, n)
    requires OnItsWay(run[|run| - 1], w, sig, receiver, path, ttl)
    ensures Continues(run, run', capacity, n)
    ensures var net, net' := run[|run| - 1], run'[|run'| - 1];
            && net'.wire == w
            && net.log < net'.log
            && net'.log[|net'.log| - 1] == Received(path[|path| - 1], sig, receiver, ttl + 1 - |path|, Handled, 0)
            && (Routed(net, receiver, path) ==>
                  net'.tasks == net.tasks && net'.log == net.log + Trace(sig, receiver, path, ttl))
    decreases |path|
  {
    hide Path, Routed, IsRun, OnItsWay, Next, Trace;
    RunsExist(run, capacity, n);
    WayStart(run[|run| - 1], w, sig, receiver, path, ttl);
    TraceStep(sig, receiver, path, ttl);
    if |path| == 1 {
      assert path == [path[0]];
      run' := Arrive(run, capacity, n, w, sig, receiver, path[0], ttl);
    } else {
      var run1 := Forward(run, capacity, n, w, sig, receiver, path, ttl);
      run' := Carry(run1, capacity, n, w, sig, receiver, path[1..], ttl - 1);
    }
  }

  /** Packets arrive: from any state of any run, a packet sent to the first node of an open
      path of at most 9 nodes can be handled at its end. Along known routes it gets there as
      one single copy, and nothing else is sent. */
  lemma PacketsArrive(run: seq<Net>, capacity: nat, n: nat, sig: Sig, receiver: Id, path: seq<Addr>)
    returns (run': seq<Net>)
    requires capacity > 0 && IsRun(run, capacity, n)
    requires Path(run[|run| - 1], sig, receiver, path) && |path| <= 9
    ensures Continues(run, run', capacity, n)
    ensures var net, net' := run[|run| - 1], run'[|run'| - 1];
            && net'.wire == net.wire
            && net.log < net'.log
            && net'.log[|net'.log| - 1] == Received(path[|path| - 1], sig, receiver, 10 - |path|, Handled, 0)
            && (Routed(net, receiver, path) ==>
                  && net'.tasks == net.tasks
                  && net'.log == net.log + [Originated(sig, receiver, path[0]), Transmitted(sig)]
                                 + Trace(sig, receiver, path, 9))
  {
    hide IsRun, Leads;
    RunsExist(run, capacity, n);
    var net := run[|run| - 1];
    var c := Copy(path[0], Packet(sig, receiver, INITIAL_TTL));
    var net1 := net.(tasks := net.tasks + [c], log := net.log + [Originated(sig, receiver, path[0])]);
    Extend(run, net1, Originate(sig, receiver, path[0]), capacity, n);
    var net2 := Sent(net1, |net.tasks|);
    Extend(run + [net1], net2, Transmit(|net.tasks|), capacity, n);
    var run2 := run + [net1] + [net2];
    run' := Carry(run2, capacity, n, net.wire, sig, receiver, path, 9);
  }
}
