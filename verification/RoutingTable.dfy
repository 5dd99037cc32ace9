/** The routing table (daemon/utils/data_struct/routing_table.h): its operations, and every
    interleaving of concurrent calls to them. */
module RoutingTable {
  import opened Words

  /** Next hop and stored ttl (a uint32_t). */
  datatype Route<A> = Route(addr: A, ttl: uint32)

  datatype Op<K, A> =
    | Add(dest: K, addr: A, newTtl: int)
    | Offer(dest: K, addr: A, newTtl: int)
  {
    /** The int argument as it is compared and stored: converted to uint32_t. */
    function Ttl(): uint32 {
      newTtl % 0x1_0000_0000
    }

    function NewRoute(): Route<A> {
      Route(addr, Ttl())
    }
  }

  /** How a call left the method. */
  datatype Outcome = Added | Exists | NotFound | Kept | Lowered
  {
    predicate Returned() {
      Added? || Lowered?
    }
  }

  /** One operation executed alone. */
  function Apply<K, A>(table: map<K, Route<A>>, op: Op<K, A>): (map<K, Route<A>>, Outcome) {
    match op
    case Add(dest, _, _) =>
      if dest !in table then (table[dest := op.NewRoute()], Added) else (table, Exists)
    case Offer(dest, _, _) =>
      if dest !in table then (table, NotFound)
      else if table[dest].ttl > op.Ttl() then (table[dest := op.NewRoute()], Lowered)
      else (table, Kept)
  }

  class RoutingTable<K(==), A> {
    var routingMap: map<K, Route<A>>

    constructor ()
      ensures routingMap == map[]
    {
      routingMap := map[];
    }

    method CanDelivered(dest: K) returns (found: bool)
      ensures found <==> dest in routingMap
    {
      found := dest in routingMap;
    }

    /** Dereferences the entry, so the caller must know that it is there. */
    method GetNextPeer(dest: K) returns (addr: A)
      requires dest in routingMap
      ensures addr == routingMap[dest].addr
    {
      addr := routingMap[dest].addr;
    }

    method AddNewRoute(dest: K, newIp: A, newTtl: int) returns (added: bool)
      modifies this
      ensures routingMap == Apply(old(routingMap), Add(dest, newIp, newTtl)).0
      ensures added <==> dest !in old(routingMap)
      ensures routingMap == if dest in old(routingMap) then old(routingMap)
                            else old(routingMap)[dest := Route(newIp, newTtl % 0x1_0000_0000)]
    {
      if dest !in routingMap {
        routingMap := routingMap[dest := Route(newIp, newTtl % 0x1_0000_0000)];
        return true;
      } else {
        return false;
      }
    }

    method TryUpdateTable(dest: K, newIp: A, newTtl: int) returns (lowered: bool)
      modifies this
      ensures routingMap == Apply(old(routingMap), Offer(dest, newIp, newTtl)).0
      ensures lowered <==> dest in old(routingMap) && newTtl % 0x1_0000_0000 < old(routingMap)[dest].ttl
      ensures routingMap == if lowered then old(routingMap)[dest := Route(newIp, newTtl % 0x1_0000_0000)]
                            else old(routingMap)
    {
      if dest !in routingMap {
        return false;
      }
      if routingMap[dest].ttl > newTtl % 0x1_0000_0000 {
        routingMap := routingMap[dest := Route(newIp, newTtl % 0x1_0000_0000)];
        return true;
      } else {
        return false;
      }
    }
  }

  // ----- concurrent calls -----

  /** Where a call stands. Upgrading: it saw a worse ttl under the shared lock, released
      that lock, and is waiting for the exclusive one. */
  datatype Pc = Start | Upgrading | Done(outcome: Outcome)

  datatype Call<K, A> = Call(op: Op<K, A>, pc: Pc)

  /** A finished call, as the history records it. */
  datatype Entry<K, A> = Entry(id: nat, op: Op<K, A>, outcome: Outcome)

  /** The table, all calls, and, as history, the finished calls in the order they finished. */
  datatype System<K, A> = System(table: map<K, Route<A>>, calls: seq<Call<K, A>>, log: seq<Entry<K, A>>)
  {
    function Finish(i: nat, outcome: Outcome): System<K, A>
      requires i < |calls|
    {
      var op := calls[i].op;
      this.(calls := calls[i := Call(op, Done(outcome))], log := log + [Entry(i, op, outcome)])
    }
  }

  ghost predicate Init<K, A>(s: System<K, A>) {
    (forall i :: 0 <= i < |s.calls| ==> s.calls[i].pc == Start) && s.log == []
  }

  /** What call i does in one locked section. The second section of an update repeats the
      comparison on the entry it found in the first. */
  function Advance<K, A>(s: System<K, A>, i: nat): System<K, A>
    requires i < |s.calls|
  {
    var Call(op, pc) := s.calls[i];
    var dest := op.dest;
    var worse := dest in s.table && s.table[dest].ttl > op.Ttl();
    match pc
    case Done(_) => s
    case Upgrading =>
      if worse then s.(table := s.table[dest := op.NewRoute()]).Finish(i, Lowered)
      else s.Finish(i, Kept)
    case Start =>
      if op.Add? then
        if dest in s.table then s.Finish(i, Exists)
        else s.(table := s.table[dest := op.NewRoute()]).Finish(i, Added)
      else if worse then s.(calls := s.calls[i := Call(op, Upgrading)])
      else s.Finish(i, if dest in s.table then Kept else NotFound)
  }

  ghost predicate Next<K, A>(s: System<K, A>, s': System<K, A>) {
    exists i: nat :: i < |s.calls| && !s.calls[i].pc.Done? && s' == Advance(s, i)
  }

  ghost predicate IsRun<K, A>(run: seq<System<K, A>>)
    decreases |run|
  {
    && run != []
    && if |run| == 1 then Init(run[0])
       else IsRun(run[..|run| - 1]) && Next(run[|run| - 2], run[|run| - 1])
  }

  /** The operations of log, executed one after the other from table t. */
  function Replay<K, A>(t: map<K, Route<A>>, log: seq<Entry<K, A>>): map<K, Route<A>>
    decreases |log|
  {
    if log == [] then t else Apply(Replay(t, log[..|log| - 1]), log[|log| - 1].op).0
  }

  /** Every operation of log returned what it returns when they run one after the other. */
  ghost predicate ReturnsAlone<K, A>(t: map<K, Route<A>>, log: seq<Entry<K, A>>)
    decreases |log|
  {
    log == [] ||
    var before := log[..|log| - 1];
    && ReturnsAlone(t, before)
    && log[|log| - 1].outcome == Apply(Replay(t, before), log[|log| - 1].op).1
  }

  /** The concurrent state is that of the finished calls executed alone, one by one, each
      exactly once and with the same results. */
  ghost predicate Linearized<K, A>(t: map<K, Route<A>>, s: System<K, A>) {
    && s.table == Replay(t, s.log)
    && ReturnsAlone(t, s.log)
    && (forall k :: 0 <= k < |s.log| ==>
          s.log[k].id < |s.calls| && s.calls[s.log[k].id] == Call(s.log[k].op, Done(s.log[k].outcome)))
    && (forall i: nat :: i < |s.calls| && s.calls[i].pc.Done? ==>
          Entry(i, s.calls[i].op, s.calls[i].pc.outcome) in s.log)
    && (forall j, k :: 0 <= j < k < |s.log| ==> s.log[j].id != s.log[k].id)
    && (forall i: nat :: i < |s.calls| && s.calls[i].pc.Upgrading? ==>
          s.calls[i].op.Offer? && s.calls[i].op.dest in s.table)
  }

  /** A call may finish with whatever its operation does when executed now. */
  lemma FinishLinearized<K, A>(t: map<K, Route<A>>, s: System<K, A>, i: nat,
                               table: map<K, Route<A>>, outcome: Outcome)
    requires Linearized(t, s) && i < |s.calls| && !s.calls[i].pc.Done?
    requires (table, outcome) == Apply(s.table, s.calls[i].op)
    ensures Linearized(t, s.(table := table).Finish(i, outcome))
  {
    hide Replay, ReturnsAlone, Apply;
    var s' := s.(table := table).Finish(i, outcome);
    var last := Entry(i, s.calls[i].op, outcome);
    LogGrows(t, s.log, last);
    ApplyKeeps(s.table, last.op);
    assert s'.log[|s.log|] == last;
    assert forall e :: e in s.log ==> e in s'.log;
    assert forall k :: 0 <= k < |s.log| ==> s.log[k].id != i;
  }

  lemma LogGrows<K, A>(t: map<K, Route<A>>, log: seq<Entry<K, A>>, last: Entry<K, A>)
    ensures Replay(t, log + [last]) == Apply(Replay(t, log), last.op).0
    ensures ReturnsAlone(t, log + [last])
       <==> ReturnsAlone(t, log) && last.outcome == Apply(Replay(t, log), last.op).1
  {
    assert (log + [last])[..|log|] == log;
  }

  lemma ApplyKeeps<K, A>(table: map<K, Route<A>>, op: Op<K, A>)
    ensures forall d :: d in table ==> d in Apply(table, op).0
  {
  }

  lemma StepLinearized<K, A>(t: map<K, Route<A>>, s: System<K, A>, i: nat)
    requires Linearized(t, s) && i < |s.calls| && !s.calls[i].pc.Done?
    ensures Linearized(t, Advance(s, i))
  {
    hide Replay, ReturnsAlone;
    var s' := Advance(s, i);
    if s'.calls[i].pc.Upgrading? {
      assert s'.log == s.log;
    } else {
      FinishLinearized(t, s, i, s'.table, s'.calls[i].pc.outcome);
    }
  }

  /** Double-checked locking is invisible: every reachable state of every interleaving is
      the result of executing the finished calls one at a time. */
  lemma {:induction false} RunsLinearize<K, A>(run: seq<System<K, A>>)
    requires IsRun(run)
    ensures Linearized(run[0].table, run[|run| - 1])
    decreases |run|
  {
    if |run| > 1 {
      var s := run[|run| - 2];
      RunsLinearize(run[..|run| - 1]);
      var i: nat :| i < |s.calls| && !s.calls[i].pc.Done? && run[|run| - 1] == Advance(s, i);
      StepLinearized(run[0].table, s, i);
    }
  }

  /** A step never removes a route and never raises a stored ttl; it ends a call with true
      exactly when it added the route or lowered its ttl, and otherwise changes no route. */
  lemma StepEffect<K, A>(s: System<K, A>, i: nat, d: K)
    requires i < |s.calls| && !s.calls[i].pc.Done?
    requires s.calls[i].pc.Upgrading? ==> s.calls[i].op.Offer?
    ensures var s' := Advance(s, i);
            var op := s.calls[i].op;
            && (d in s.table ==> d in s'.table && s'.table[d].ttl <= s.table[d].ttl)
            && (s'.calls[i].pc == Done(Lowered) <==>
                  op.dest in s.table && s'.table[op.dest].ttl < s.table[op.dest].ttl)
            && (s'.calls[i].pc == Done(Added) <==> op.dest !in s.table && op.dest in s'.table)
            && (!(s'.calls[i].pc.Done? && s'.calls[i].pc.outcome.Returned()) ==> s'.table == s.table)
            && (d != op.dest && d in s'.table ==> d in s.table && s'.table[d] == s.table[d])
  {
  }

  // ----- the table ends at the minimum -----

  /** Offers that found the entry, and the add that created it, bound the stored ttl from
      above; the entry is one of theirs, next hop included, or the one from the start. */
  ghost predicate AtMinimum<K, A>(t: map<K, Route<A>>, s: System<K, A>, d: K)
  {
    d in s.table ==>
      && (d in t ==> s.table[d].ttl <= t[d].ttl)
      && (forall i: nat :: i < |s.calls| && Bounds(s.calls[i], d) ==> s.table[d].ttl <= s.calls[i].op.Ttl())
      && ((d in t && s.table[d] == t[d]) || exists i: nat :: i < |s.calls| && Wrote(s.calls[i], d, s.table[d]))
  }

  ghost predicate Bounds<K, A>(call: Call<K, A>, d: K) {
    call.op.dest == d && call.pc in {Done(Added), Done(Kept), Done(Lowered)}
  }

  ghost predicate Wrote<K, A>(call: Call<K, A>, d: K, r: Route<A>) {
    call.op.dest == d && call.pc in {Done(Added), Done(Lowered)} && call.op.NewRoute() == r
  }

  /** A call that bounds an entry has seen one. */
  ghost predicate BoundsSeen<K, A>(t: map<K, Route<A>>, s: System<K, A>, d: K) {
    && (d in t ==> d in s.table)
    && (forall i: nat :: i < |s.calls| && Bounds(s.calls[i], d) ==> d in s.table)
    && (forall i: nat :: i < |s.calls| && s.calls[i].pc.Upgrading? ==>
          s.calls[i].op.Offer? && s.calls[i].op.dest in s.table)
  }

  lemma StepMinimum<K, A>(t: map<K, Route<A>>, s: System<K, A>, i: nat, d: K)
    requires AtMinimum(t, s, d) && BoundsSeen(t, s, d)
    requires i < |s.calls| && !s.calls[i].pc.Done?
    ensures AtMinimum(t, Advance(s, i), d) && BoundsSeen(t, Advance(s, i), d)
  {
    var s' := Advance(s, i);
    if d in s'.table {
      if s.calls[i].op.dest == d && s'.table != s.table {
        assert Wrote(s'.calls[i], d, s'.table[d]);
      } else if !(d in t && s.table[d] == t[d]) {
        var j: nat :| j < |s.calls| && Wrote(s.calls[j], d, s.table[d]);
        assert Wrote(s'.calls[j], d, s'.table[d]);
      }
    }
  }

  /** In every run a stored route is the minimum, by ttl, of the route it started from and
      all finished offers that found it. */
  lemma {:induction false} RunsReachMinimum<K, A>(run: seq<System<K, A>>, d: K)
    requires IsRun(run)
    ensures AtMinimum(run[0].table, run[|run| - 1], d) && BoundsSeen(run[0].table, run[|run| - 1], d)
    decreases |run|
  {
    if |run| > 1 {
      var s := run[|run| - 2];
      RunsReachMinimum(run[..|run| - 1], d);
      var i: nat :| i < |s.calls| && !s.calls[i].pc.Done? && run[|run| - 1] == Advance(s, i);
      StepMinimum(run[0].table, s, i, d);
    }
  }

  // ----- every call finishes -----

  ghost function Remaining<K, A>(calls: seq<Call<K, A>>): nat {
    if calls == [] then 0
    else Remaining(calls[..|calls| - 1]) + match calls[|calls| - 1].pc
                                           case Start => 2
                                           case Upgrading => 1
                                           case Done(_) => 0
  }

  lemma {:induction false} RemainingDrops<K, A>(calls: seq<Call<K, A>>, i: nat, c: Call<K, A>)
    requires i < |calls| && !calls[i].pc.Done? && (c.pc.Done? || (c.pc.Upgrading? && calls[i].pc.Start?))
    ensures Remaining(calls[i := c]) < Remaining(calls)
    decreases |calls|
  {
    var n := |calls| - 1;
    if i < n {
      assert calls[i := c][..n] == calls[..n][i := c];
      RemainingDrops(calls[..n], i, c);
    } else {
      assert calls[i := c][..n] == calls[..n];
    }
  }

  lemma StepSpends<K, A>(s: System<K, A>, i: nat)
    requires i < |s.calls| && !s.calls[i].pc.Done?
    ensures Remaining(Advance(s, i).calls) < Remaining(s.calls)
  {
    RemainingDrops(s.calls, i, Advance(s, i).calls[i]);
  }

  /** No interleaving is longer than two locked sections per call. */
  lemma {:induction false} RunsTerminate<K, A>(run: seq<System<K, A>>)
    requires IsRun(run)
    ensures |run| - 1 + Remaining(run[|run| - 1].calls) <= 2 * |run[0].calls|
    decreases |run|
  {
    if |run| == 1 {
      RemainingAtStart(run[0].calls);
    } else if |run| > 1 {
      var s := run[|run| - 2];
      RunsTerminate(run[..|run| - 1]);
      var i: nat :| i < |s.calls| && !s.calls[i].pc.Done? && run[|run| - 1] == Advance(s, i);
      StepSpends(s, i);
    }
  }

  lemma {:induction false} RemainingAtStart<K, A>(calls: seq<Call<K, A>>)
    requires forall i :: 0 <= i < |calls| ==> calls[i].pc == Start
    ensures Remaining(calls) == 2 * |calls|
    decreases |calls|
  {
    if calls != [] {
      RemainingAtStart(calls[..|calls| - 1]);
    }
  }
}
