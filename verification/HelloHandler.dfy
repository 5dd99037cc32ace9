/** The hello handler (daemon/packet/handler/hello_message.tcc): one call as a method on the
    server's pool and table, and all interleavings of concurrent calls. */
module HelloHandler {
  import opened Options
  import opened PeerTypes
  import opened Words
  import IP = InstancePool
  import RT = RoutingTable

  type Cert = string

  /** What new_session returns for an accepted certificate. */
  datatype Session = Session(cert: Cert)

  /** A received hello: sender and certificate from the message, address and ttl from the
      copy that carried it. */
  datatype Hello = Hello(sender: Id, cert: Cert, addr: Addr, ttl: uint32)
  {
    function NewRoute(): RT.Route<Addr> {
      RT.Route(addr, ttl)
    }
  }

  /** A hello in return: the receiver named in its payload, and the address it is sent to. */
  datatype Reply = Reply(receiver: Id, dest: Addr)

  // ----- one call -----

  /** Pool, table and replies after one undisturbed call, and the value it returns. */
  function Handle(accepts: Cert -> bool, pool: map<Id, Session>, routes: Routes, replies: seq<Reply>,
                  msg: Hello): (map<Id, Session>, Routes, seq<Reply>, bool)
  {
    if msg.sender !in pool && !accepts(msg.cert) then (pool, routes, replies, false)
    else
      var pool' := IP.Insert(pool, msg.sender, Session(msg.cert));
      if msg.sender in routes then
        (pool', RT.Apply(routes, RT.Offer(msg.sender, msg.addr, msg.ttl)).0,
         replies + [Reply(msg.sender, msg.addr)], true)
      else (pool', RT.Apply(routes, RT.Add(msg.sender, msg.addr, msg.ttl)).0, replies, true)
  }

  class Server {
    const accepts: Cert -> bool
    const peerPool: IP.InstancePool<Id, Session>
    const routing: RT.RoutingTable<Id, Addr>
    var replies: seq<Reply>

    constructor (accepts: Cert -> bool)
      ensures fresh(peerPool) && fresh(routing) && this.accepts == accepts
      ensures peerPool.pool == map[] && routing.routingMap == map[] && replies == []
    {
      this.accepts := accepts;
      peerPool := new IP.InstancePool();
      routing := new RT.RoutingTable();
      replies := [];
    }

    method NewSession(cert: Cert) returns (session: Option<Session>)
      ensures session == if accepts(cert) then Some(Session(cert)) else None
    {
      session := if accepts(cert) then Some(Session(cert)) else None;
    }

    method InternalHandle(msg: Hello) returns (ok: bool)
      modifies this`replies, peerPool, routing
      ensures (peerPool.pool, routing.routingMap, replies, ok)
           == Handle(accepts, old(peerPool.pool), old(routing.routingMap), old(replies), msg)
      ensures ok <==> msg.sender in old(peerPool.pool) || accepts(msg.cert)
      ensures !ok ==> peerPool.pool == old(peerPool.pool) && routing.routingMap == old(routing.routingMap)
                      && replies == old(replies)
      ensures ok && msg.sender in old(peerPool.pool) ==> peerPool.pool == old(peerPool.pool)
      ensures ok && msg.sender !in old(peerPool.pool) ==>
                peerPool.pool == old(peerPool.pool)[msg.sender := Session(msg.cert)]
      ensures ok && msg.sender !in old(routing.routingMap) ==>
                && replies == old(replies)
                && routing.routingMap == old(routing.routingMap)[msg.sender := RT.Route(msg.addr, msg.ttl)]
      ensures ok && msg.sender in old(routing.routingMap) ==>
                && replies == old(replies) + [Reply(msg.sender, msg.addr)]
                && routing.routingMap
                   == if msg.ttl < old(routing.routingMap)[msg.sender].ttl
                      then old(routing.routingMap)[msg.sender := RT.Route(msg.addr, msg.ttl)] else old(routing.routingMap)
    {
      var session := peerPool.GetInstance(msg.sender);
      if session.None? {
        var newSession := NewSession(msg.cert);
        if newSession.None? {
          return false;
        }
        var _ := peerPool.AddInstance(msg.sender, newSession.value);
      }
      var found := routing.CanDelivered(msg.sender);
      if found {
        var _ := routing.TryUpdateTable(msg.sender, msg.addr, msg.ttl);
        replies := replies + [Reply(msg.sender, msg.addr)];
      } else {
        var _ := routing.AddNewRoute(msg.sender, msg.addr, msg.ttl);
      }
      return true;
    }
  }

  // ----- concurrent calls -----

  datatype Pc = GetSession | AddSession | CheckRoute | UpdateRoute | SendReply | AddRoute
              | Finished(outcome: Outcome)

  datatype Outcome = Rejected | Replied | RouteAdded

  datatype Handler = Handler(msg: Hello, pc: Pc)

  /** A packet being routed: can_delivered, then get_next_peer. Crashed would be a
      dereference of the end iterator. */
  datatype Lookup = Lookup(dest: Id, stage: Stage)
  datatype Stage = Asked | Found | Missing | Got(addr: Addr) | Crashed

  datatype World = World(pool: map<Id, Session>, routes: Routes, replies: seq<nat>,
                         handlers: seq<Handler>, lookups: seq<Lookup>)
  {
    function Goto(i: nat, pc: Pc): World
      requires i < |handlers|
    {
      this.(handlers := handlers[i := Handler(handlers[i].msg, pc)])
    }
  }

  ghost predicate Init(w: World) {
    w == World(map[], map[], [], [], [])
  }

  /** The next pool or table call of handler i, as one atomic step. */
  function Advance(accepts: Cert -> bool, w: World, i: nat): World
    requires i < |w.handlers|
  {
    var Handler(msg, pc) := w.handlers[i];
    match pc
    case GetSession =>
      if msg.sender in w.pool then w.Goto(i, CheckRoute)
      else if accepts(msg.cert) then w.Goto(i, AddSession)
      else w.Goto(i, Finished(Rejected))
    case AddSession =>
      w.(pool := IP.Insert(w.pool, msg.sender, Session(msg.cert))).Goto(i, CheckRoute)
    case CheckRoute =>
      w.Goto(i, if msg.sender in w.routes then UpdateRoute else AddRoute)
    case UpdateRoute =>
      w.(routes := RT.Apply(w.routes, RT.Offer(msg.sender, msg.addr, msg.ttl)).0).Goto(i, SendReply)
    case SendReply =>
      w.(replies := w.replies + [i]).Goto(i, Finished(Replied))
    case AddRoute =>
      w.(routes := RT.Apply(w.routes, RT.Add(msg.sender, msg.addr, msg.ttl)).0).Goto(i, Finished(RouteAdded))
    case Finished(_) => w
  }

  function AdvanceLookup(w: World, i: nat): World
    requires i < |w.lookups|
  {
    var Lookup(dest, stage) := w.lookups[i];
    var stage' :=
      match stage
      case Asked => if dest in w.routes then Found else Missing
      case Found => if dest in w.routes then Got(w.routes[dest].addr) else Crashed
      case _ => stage;
    w.(lookups := w.lookups[i := Lookup(dest, stage')])
  }

  datatype Action = Arrive(msg: Hello) | Work(i: nat) | Ask(dest: Id) | Resolve(i: nat)

  ghost predicate NextBy(accepts: Cert -> bool, w: World, w': World, a: Action) {
    match a
    case Arrive(msg) => w' == w.(handlers := w.handlers + [Handler(msg, GetSession)])
    case Work(i) => i < |w.handlers| && w' == Advance(accepts, w, i)
    case Ask(dest) => w' == w.(lookups := w.lookups + [Lookup(dest, Asked)])
    case Resolve(i) => i < |w.lookups| && w' == AdvanceLookup(w, i)
  }

  ghost predicate IsRun(accepts: Cert -> bool, run: seq<World>)
    decreases |run|
  {
    && run != []
    && if |run| == 1 then Init(run[0])
       else IsRun(accepts, run[..|run| - 1])
            && Next(accepts, run[|run| - 2], run[|run| - 1])
  }

  ghost predicate Next(accepts: Cert -> bool, w: World, w': World) {
    exists a :: NextBy(accepts, w, w', a)
  }

  ghost predicate HandlerOk(accepts: Cert -> bool, w: World, i: nat)
    requires i < |w.handlers|
  {
    var Handler(msg, pc) := w.handlers[i];
    && (pc == AddSession ==> accepts(msg.cert))
    && (pc == Finished(Rejected) ==> !accepts(msg.cert))
    && (pc in {CheckRoute, UpdateRoute, SendReply, AddRoute, Finished(Replied), Finished(RouteAdded)} ==>
          msg.sender in w.pool)
    && (pc in {UpdateRoute, SendReply, Finished(Replied), Finished(RouteAdded)} ==> msg.sender in w.routes)
    && (pc == Finished(Replied) <==> i in w.replies)
  }

  ghost predicate PoolOk(accepts: Cert -> bool, w: World) {
    forall d :: d in w.pool ==> accepts(w.pool[d].cert)
  }

  ghost predicate RoutesOk(w: World) {
    forall d :: d in w.routes ==> d in w.pool && Heard(w, d)
  }

  ghost predicate HandlersOk(accepts: Cert -> bool, w: World) {
    forall i: nat :: i < |w.handlers| ==> HandlerOk(accepts, w, i)
  }

  ghost predicate RepliesOk(w: World) {
    && (forall k :: 0 <= k < |w.replies| ==> w.replies[k] < |w.handlers|)
    && (forall j, k :: 0 <= j < k < |w.replies| ==> w.replies[j] != w.replies[k])
  }

  ghost predicate LookupsOk(w: World) {
    forall i :: 0 <= i < |w.lookups| ==>
      && (w.lookups[i].stage.Found? ==> w.lookups[i].dest in w.routes)
      && !w.lookups[i].stage.Crashed?
  }

  /** Every route has an accepted session behind it and comes from one hello of its
      destination; replies are exactly those of the handlers in state Replied, one each. */
  ghost predicate Inv(accepts: Cert -> bool, w: World) {
    PoolOk(accepts, w) && RoutesOk(w) && HandlersOk(accepts, w) && RepliesOk(w) && LookupsOk(w)
  }

  ghost predicate Heard(w: World, d: Id)
    requires d in w.routes
  {
    exists i: nat :: i < |w.handlers| && w.handlers[i].msg.sender == d
                  && w.handlers[i].msg.NewRoute() == w.routes[d]
  }

  lemma HeardStays(w: World, w': World, d: Id)
    requires d in w.routes && d in w'.routes && w.routes[d] == w'.routes[d] && Heard(w, d)
    requires |w.handlers| <= |w'.handlers|
    requires forall i :: 0 <= i < |w.handlers| ==> w'.handlers[i].msg == w.handlers[i].msg
    ensures Heard(w', d)
  {
    var i: nat :| i < |w.handlers| && w.handlers[i].msg.sender == d
               && w.handlers[i].msg.NewRoute() == w.routes[d];
    assert w'.handlers[i].msg == w.handlers[i].msg;
  }

  lemma StepPool(accepts: Cert -> bool, w: World, w': World, a: Action)
    requires Inv(accepts, w) && NextBy(accepts, w, w', a)
    ensures PoolOk(accepts, w')
  {
    if a.Work? {
      assert HandlerOk(accepts, w, a.i);
    }
  }

  /** A table operation writes at most its own destination, and only its own route. */
  lemma ApplyWrites(routes: Routes, op: RT.Op<Id, Addr>, d: Id)
    requires d in RT.Apply(routes, op).0
    ensures var r := RT.Apply(routes, op).0;
            (d in routes && r[d] == routes[d]) || (d == op.dest && r[d] == op.NewRoute())
  {
  }

  lemma MessagesStay(accepts: Cert -> bool, w: World, w': World, a: Action)
    requires NextBy(accepts, w, w', a)
    ensures |w.handlers| <= |w'.handlers|
    ensures forall i :: 0 <= i < |w.handlers| ==> w'.handlers[i].msg == w.handlers[i].msg
    ensures forall d :: d in w.pool ==> d in w'.pool
  {
    hide RT.Apply;
  }

  lemma StepRoutes(accepts: Cert -> bool, w: World, w': World, a: Action)
    requires Inv(accepts, w) && NextBy(accepts, w, w', a)
    ensures RoutesOk(w')
  {
    hide NextBy, Heard, HandlersOk, RepliesOk, LookupsOk, PoolOk;
    MessagesStay(accepts, w, w', a);
    forall d | d in w'.routes
      ensures d in w'.pool && Heard(w', d)
    {
      if d in w.routes && w.routes[d] == w'.routes[d] {
        HeardStays(w, w', d);
      } else {
        RouteWritten(accepts, w, w', a, d);
      }
    }
  }

  lemma RouteWritten(accepts: Cert -> bool, w: World, w': World, a: Action, d: Id)
    requires HandlersOk(accepts, w) && NextBy(accepts, w, w', a)
    requires d in w'.routes && !(d in w.routes && w.routes[d] == w'.routes[d])
    ensures d in w'.pool && Heard(w', d)
  {
    hide RT.Apply, IP.Insert;
    assert HandlerOk(accepts, w, a.i);
    var msg := w.handlers[a.i].msg;
    if w.handlers[a.i].pc.UpdateRoute? {
      ApplyWrites(w.routes, RT.Offer(msg.sender, msg.addr, msg.ttl), d);
    } else {
      ApplyWrites(w.routes, RT.Add(msg.sender, msg.addr, msg.ttl), d);
    }
    assert w'.handlers[a.i].msg.NewRoute() == w'.routes[d];
  }

  /** No table operation of handler a.i removes a route, and adding makes its sender routed. */
  lemma RoutesGrow(w: World, a: Action)
    requires a.Work? ==> a.i < |w.handlers|
    ensures a.Work? ==>
              var msg := w.handlers[a.i].msg;
              && (forall d :: d in w.routes ==>
                    && d in RT.Apply(w.routes, RT.Offer(msg.sender, msg.addr, msg.ttl)).0
                    && d in RT.Apply(w.routes, RT.Add(msg.sender, msg.addr, msg.ttl)).0)
              && msg.sender in RT.Apply(w.routes, RT.Add(msg.sender, msg.addr, msg.ttl)).0
  {
  }

  /** A handler that did not move is still in order: pool and routes only grow. */
  lemma OthersStay(accepts: Cert -> bool, w: World, w': World, i: nat)
    requires i < |w.handlers| <= |w'.handlers| && HandlerOk(accepts, w, i)
    requires w'.handlers[i] == w.handlers[i] && (i in w.replies <==> i in w'.replies)
    requires forall d :: d in w.pool ==> d in w'.pool
    requires forall d :: d in w.routes ==> d in w'.routes
    ensures HandlerOk(accepts, w', i)
  {
  }

  lemma MovedStays(accepts: Cert -> bool, w: World, w': World, i: nat)
    requires i < |w.handlers| && HandlerOk(accepts, w, i) && w' == Advance(accepts, w, i)
    ensures HandlerOk(accepts, w', i)
  {
  }

  lemma StepHandlers(accepts: Cert -> bool, w: World, w': World, a: Action)
    requires Inv(accepts, w) && NextBy(accepts, w, w', a)
    ensures HandlersOk(accepts, w')
  {
    hide RT.Apply, Heard, IP.Insert, PoolOk, RoutesOk, LookupsOk;
    RoutesGrow(w, a);
    forall i: nat | i < |w'.handlers|
      ensures HandlerOk(accepts, w', i)
    {
      if i < |w.handlers| {
        assert HandlerOk(accepts, w, i);
        if a.Work? && a.i == i {
          MovedStays(accepts, w, w', i);
        } else {
          OthersStay(accepts, w, w', i);
        }
      }
    }
  }

  lemma StepReplies(accepts: Cert -> bool, w: World, w': World, a: Action)
    requires Inv(accepts, w) && NextBy(accepts, w, w', a)
    ensures RepliesOk(w')
  {
    if w'.replies != w.replies {
      assert HandlerOk(accepts, w, a.i);
    }
  }

  lemma StepLookups(accepts: Cert -> bool, w: World, w': World, a: Action)
    requires LookupsOk(w) && NextBy(accepts, w, w', a)
    ensures LookupsOk(w')
  {
    hide RT.Apply, IP.Insert;
    RoutesGrow(w, a);
  }

  lemma StepInv(accepts: Cert -> bool, w: World, w': World, a: Action)
    requires Inv(accepts, w) && NextBy(accepts, w, w', a)
    ensures Inv(accepts, w')
  {
    hide NextBy, PoolOk, RoutesOk, HandlersOk, RepliesOk, LookupsOk;
    StepLookups(accepts, w, w', a);
    StepPool(accepts, w, w', a);
    StepRoutes(accepts, w, w', a);
    StepHandlers(accepts, w, w', a);
    StepReplies(accepts, w, w', a);
  }

  lemma {:induction false} RunsKeepInv(accepts: Cert -> bool, run: seq<World>)
    requires IsRun(accepts, run)
    ensures Inv(accepts, run[|run| - 1])
    decreases |run|
  {
    if |run| > 1 {
      RunsKeepInv(accepts, run[..|run| - 1]);
      var a :| NextBy(accepts, run[|run| - 2], run[|run| - 1], a);
      StepInv(accepts, run[|run| - 2], run[|run| - 1], a);
    }
  }

  /** No interleaving of hellos and lookups dereferences a missing route, and every routed
      destination has a session whose certificate was accepted. */
  lemma RoutedPeersHaveSessions(accepts: Cert -> bool, run: seq<World>, d: Id)
    requires IsRun(accepts, run)
    ensures var w := run[|run| - 1];
            && (d in w.routes ==> d in w.pool && accepts(w.pool[d].cert) && Heard(w, d))
            && (forall i :: 0 <= i < |w.lookups| ==> !w.lookups[i].stage.Crashed?)
  {
    RunsKeepInv(accepts, run);
  }

  /** A hello of d came from addr. */
  ghost predicate CameFrom(w: World, d: Id, addr: Addr) {
    exists i: nat :: i < |w.handlers| && w.handlers[i].msg.sender == d && w.handlers[i].msg.addr == addr
  }

  ghost predicate GotOk(w: World) {
    forall i :: 0 <= i < |w.lookups| && w.lookups[i].stage.Got? ==>
      CameFrom(w, w.lookups[i].dest, w.lookups[i].stage.addr)
  }

  lemma CameFromStays(accepts: Cert -> bool, w: World, w': World, a: Action, d: Id, addr: Addr)
    requires NextBy(accepts, w, w', a) && CameFrom(w, d, addr)
    ensures CameFrom(w', d, addr)
  {
    hide NextBy;
    MessagesStay(accepts, w, w', a);
    var i: nat :| i < |w.handlers| && w.handlers[i].msg.sender == d && w.handlers[i].msg.addr == addr;
    assert w'.handlers[i].msg == w.handlers[i].msg;
  }

  lemma HeardCameFrom(w: World, d: Id)
    requires d in w.routes && Heard(w, d)
    ensures CameFrom(w, d, w.routes[d].addr)
  {
    var i: nat :| i < |w.handlers| && w.handlers[i].msg.sender == d && w.handlers[i].msg.NewRoute() == w.routes[d];
  }

  /** A lookup gets an address only in a step that reads it from the table. */
  lemma GotNow(accepts: Cert -> bool, w: World, w': World, a: Action, i: nat)
    requires NextBy(accepts, w, w', a) && i < |w'.lookups| && w'.lookups[i].stage.Got?
    requires !(i < |w.lookups| && w.lookups[i] == w'.lookups[i])
    ensures w'.lookups[i].dest in w.routes && w.routes[w'.lookups[i].dest].addr == w'.lookups[i].stage.addr
  {
    hide RT.Apply, IP.Insert;
  }

  lemma {:induction false} RunsKeepGot(accepts: Cert -> bool, run: seq<World>)
    requires IsRun(accepts, run)
    ensures GotOk(run[|run| - 1])
    decreases |run|
  {
    hide NextBy, CameFrom, Heard, Inv;
    if |run| > 1 {
      var w, w' := run[|run| - 2], run[|run| - 1];
      RunsKeepGot(accepts, run[..|run| - 1]);
      var a :| NextBy(accepts, w, w', a);
      forall i | 0 <= i < |w'.lookups| && w'.lookups[i].stage.Got?
        ensures CameFrom(w', w'.lookups[i].dest, w'.lookups[i].stage.addr)
      {
        var Lookup(dest, stage) := w'.lookups[i];
        if !(i < |w.lookups| && w.lookups[i] == w'.lookups[i]) {
          GotNow(accepts, w, w', a, i);
          RoutedPeersHaveSessions(accepts, run[..|run| - 1], dest);
          HeardCameFrom(w, dest);
        }
        CameFromStays(accepts, w, w', a, dest, stage.addr);
      }
    }
  }

  /** A lookup that is not interrupted finds exactly what the table holds. */
  lemma LookupAlone(w: World, i: nat)
    requires i < |w.lookups| && w.lookups[i].stage == Asked
    ensures var dest := w.lookups[i].dest;
            AdvanceLookup(AdvanceLookup(w, i), i)
            == w.(lookups := w.lookups[i := Lookup(dest, if dest in w.routes then Got(w.routes[dest].addr) else Missing)])
  {
  }

  /** A handler that took the branch for an unknown route has finished for d. */
  ghost predicate RouteAddedFor(w: World, d: Id) {
    exists j: nat :: j < |w.handlers| && w.handlers[j].msg.sender == d
                  && w.handlers[j].pc == Finished(RouteAdded)
  }

  ghost predicate AddedOk(w: World) {
    forall d :: d in w.routes ==> RouteAddedFor(w, d)
  }

  lemma FinishedStays(accepts: Cert -> bool, w: World, w': World, a: Action, j: nat)
    requires NextBy(accepts, w, w', a) && j < |w.handlers| && w.handlers[j].pc.Finished?
    ensures j < |w'.handlers| && w'.handlers[j] == w.handlers[j]
  {
    hide RT.Apply, IP.Insert;
  }

  lemma StepAdded(accepts: Cert -> bool, w: World, w': World, a: Action)
    requires Inv(accepts, w) && AddedOk(w) && NextBy(accepts, w, w', a)
    ensures AddedOk(w')
  {
    hide RT.Apply, IP.Insert, HandlerOk, Heard, NextBy, PoolOk, RoutesOk, RepliesOk, LookupsOk, HandlersOk;
    forall d | d in w'.routes
      ensures RouteAddedFor(w', d)
    {
      if d in w.routes {
        var j: nat :| j < |w.handlers| && w.handlers[j].msg.sender == d
                   && w.handlers[j].pc == Finished(RouteAdded);
        FinishedStays(accepts, w, w', a, j);
      } else {
        AddedNow(accepts, w, w', a, d);
      }
    }
  }

  /** A route appears only in the step that finishes an add. */
  lemma AddedNow(accepts: Cert -> bool, w: World, w': World, a: Action, d: Id)
    requires HandlersOk(accepts, w) && NextBy(accepts, w, w', a) && d !in w.routes && d in w'.routes
    ensures RouteAddedFor(w', d)
  {
    hide IP.Insert, Heard;
    assert HandlerOk(accepts, w, a.i);
    assert w'.handlers[a.i].msg.sender == d && w'.handlers[a.i].pc == Finished(RouteAdded);
  }

  lemma {:induction false} RunsKeepAdded(accepts: Cert -> bool, run: seq<World>)
    requires IsRun(accepts, run)
    ensures AddedOk(run[|run| - 1])
    decreases |run|
  {
    if |run| > 1 {
      RunsKeepAdded(accepts, run[..|run| - 1]);
      RunsKeepInv(accepts, run[..|run| - 1]);
      var a :| NextBy(accepts, run[|run| - 2], run[|run| - 1], a);
      StepAdded(accepts, run[|run| - 2], run[|run| - 1], a);
    }
  }

  /** Another handler of the same sender than i has finished without a reply. */
  ghost predicate OtherUnanswered(w: World, i: nat)
    requires i < |w.handlers|
  {
    exists j: nat :: j < |w.handlers| && j != i && w.handlers[j].msg.sender == w.handlers[i].msg.sender
                  && w.handlers[j].pc == Finished(RouteAdded) && j !in w.replies
  }

  /** The hello that makes a peer known is never answered: in every run a handler that has
      replied, or is about to, has another hello of the same peer finished before it that
      added the route and got no reply. */
  lemma FirstHelloUnanswered(accepts: Cert -> bool, run: seq<World>, i: nat)
    requires IsRun(accepts, run)
    ensures var w := run[|run| - 1];
            && (forall k :: 0 <= k < |w.replies| ==> w.replies[k] < |w.handlers|)
            && (i < |w.handlers| && (i in w.replies || w.handlers[i].pc in {UpdateRoute, SendReply}) ==>
                  OtherUnanswered(w, i))
  {
    hide Heard;
    var w := run[|run| - 1];
    RunsKeepInv(accepts, run);
    RunsKeepAdded(accepts, run);
    if i < |w.handlers| && (i in w.replies || w.handlers[i].pc in {UpdateRoute, SendReply}) {
      assert HandlerOk(accepts, w, i);
      assert RouteAddedFor(w, w.handlers[i].msg.sender);
      var j: nat :| j < |w.handlers| && w.handlers[j].msg.sender == w.handlers[i].msg.sender
                 && w.handlers[j].pc == Finished(RouteAdded);
      assert HandlerOk(accepts, w, j);
    }
  }

  /** A session never changes once stored; a route is never removed and its ttl never rises. */
  ghost predicate Grows(w: World, w': World) {
    && (forall d :: d in w.pool ==> d in w'.pool && w'.pool[d] == w.pool[d])
    && (forall d :: d in w.routes ==> d in w'.routes && w'.routes[d].ttl <= w.routes[d].ttl)
    && |w.handlers| <= |w'.handlers|
    && (forall i :: 0 <= i < |w.handlers| && w.handlers[i].pc.Finished? ==> w'.handlers[i] == w.handlers[i])
    && w.replies <= w'.replies
  }

  lemma {:induction false} RunsGrow(accepts: Cert -> bool, run: seq<World>, k: nat)
    requires IsRun(accepts, run) && k < |run|
    ensures Grows(run[k], run[|run| - 1])
    decreases |run|
  {
    if k < |run| - 1 {
      RunsGrow(accepts, run[..|run| - 1], k);
      var a :| NextBy(accepts, run[|run| - 2], run[|run| - 1], a);
      StepGrows(accepts, run[|run| - 2], run[|run| - 1], a);
      assert Grows(run[k], run[|run| - 2]);
    }
  }

  lemma StepGrows(accepts: Cert -> bool, w: World, w': World, a: Action)
    requires NextBy(accepts, w, w', a)
    ensures Grows(w, w')
  {
  }

  // ----- a call left alone -----

  /** n consecutive steps of handler i. */
  function RunAlone(accepts: Cert -> bool, w: World, i: nat, n: nat): (w': World)
    requires i < |w.handlers|
    ensures |w'.handlers| == |w.handlers|
    decreases n
  {
    if n == 0 then w else RunAlone(accepts, Advance(accepts, w, i), i, n - 1)
  }

  /** From the route check on: two or three steps finish the call. */
  lemma FromCheckRoute(accepts: Cert -> bool, w: World, i: nat, n: nat)
    requires i < |w.handlers| && w.handlers[i].pc == CheckRoute && n >= 3
    ensures var msg := w.handlers[i].msg;
            var known := msg.sender in w.routes;
            var op := if known then RT.Offer(msg.sender, msg.addr, msg.ttl)
                      else RT.Add(msg.sender, msg.addr, msg.ttl);
            var w' := RunAlone(accepts, w, i, n);
            && w'.pool == w.pool && w'.routes == RT.Apply(w.routes, op).0
            && w'.handlers[i].pc == Finished(if known then Replied else RouteAdded)
            && w'.replies == if known then w.replies + [i] else w.replies
  {
    var w1 := Advance(accepts, w, i);
    var w2 := Advance(accepts, w1, i);
    var w3 := Advance(accepts, w2, i);
    assert RunAlone(accepts, w, i, n) == RunAlone(accepts, w1, i, n - 1);
    assert RunAlone(accepts, w1, i, n - 1) == RunAlone(accepts, w2, i, n - 2);
    assert RunAlone(accepts, w2, i, n - 2) == RunAlone(accepts, w3, i, n - 3);
    assert w3.handlers[i].pc.Finished?;
    Idle(accepts, w3, i, n - 3);
  }

  lemma {:induction false} Idle(accepts: Cert -> bool, w: World, i: nat, n: nat)
    requires i < |w.handlers| && w.handlers[i].pc.Finished?
    ensures RunAlone(accepts, w, i, n) == w
    decreases n
  {
    if n > 0 {
      Idle(accepts, w, i, n - 1);
    }
  }

  /** A handler that is not interrupted does what the method does: the same pool, table
      and return value, and a reply exactly when the method sends one. */
  lemma AloneIsHandle(accepts: Cert -> bool, w: World, i: nat)
    requires i < |w.handlers| && w.handlers[i].pc == GetSession
    ensures var msg := w.handlers[i].msg;
            var (pool, routes, replies, ok) := Handle(accepts, w.pool, w.routes, [], msg);
            var w' := RunAlone(accepts, w, i, 5);
            && w'.pool == pool && w'.routes == routes
            && w'.handlers[i].pc == Finished(if !ok then Rejected else if replies == [] then RouteAdded else Replied)
            && w'.replies == if replies == [] then w.replies else w.replies + [i]
  {
    hide RT.Apply;
    var w1 := Advance(accepts, w, i);
    assert RunAlone(accepts, w, i, 5) == RunAlone(accepts, w1, i, 4);
    if w1.handlers[i].pc == CheckRoute {
      FromCheckRoute(accepts, w1, i, 4);
    } else if w1.handlers[i].pc == AddSession {
      var w2 := Advance(accepts, w1, i);
      assert RunAlone(accepts, w1, i, 4) == RunAlone(accepts, w2, i, 3);
      FromCheckRoute(accepts, w2, i, 3);
    } else {
      Idle(accepts, w1, i, 4);
    }
  }

  /** With no route to the sender, so in particular with an empty table, an undisturbed call
      sends no reply, and it adds the route exactly when it succeeds. */
  lemma UnknownPeerUnanswered(accepts: Cert -> bool, w: World, i: nat)
    requires i < |w.handlers| && w.handlers[i].pc == GetSession && w.handlers[i].msg.sender !in w.routes
    ensures var w' := RunAlone(accepts, w, i, 5);
            && w'.replies == w.replies
            && w'.handlers[i].pc.Finished?
            && (w'.handlers[i].pc == Finished(RouteAdded) <==> w.handlers[i].msg.sender in w'.routes)
  {
    hide RunAlone;
    AloneIsHandle(accepts, w, i);
  }
}
