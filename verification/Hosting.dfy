/**
 Workers and the connections they hold: what `Server` says of tables and close callbacks, with the connections
 themselves making the callbacks.
 */
module Hosting {
  import opened Prelude
  import opened HttpLimits
  import opened Connection
  import opened ConnectionInvariants
  import opened ConnectionRuns
  import Server

  /** A worker and every connection it has admitted, closed ones included: late completions still reach them. */
  datatype Host = Host(worker: Server.Worker, admitted: map<nat, Conn>)

  const IDLE_HOST: Host := Host(Server.IDLE_WORKER, map[])

  datatype HostEvent =
    | Arrives(host: nat)
    | Happens(host: nat, id: nat, event: Event)

  /** A socket is accepted: the connection is entered under the next id and started, or dropped. */
  function Admit(h: Host, limits: Limits, limit: nat): Host {
    var worker := Server.Accept(h.worker, limit);
    if worker.nextId == h.worker.nextId then Host(worker, h.admitted)
    else Host(worker, h.admitted[h.worker.nextId := Begin(limits, h.worker.nextId)])
  }

  /** The ids for which a connection has called its close callback in a step. */
  function Reported(before: Conn, after: Conn): seq<nat> {
    if |before.history.closedIds| <= |after.history.closedIds|
    then after.history.closedIds[|before.history.closedIds|..] else []
  }

  /** The close callback erases the id from the table, each time it is called. */
  function Erase(worker: Server.Worker, ids: seq<nat>): Server.Worker
    decreases |ids|
  {
    if ids == [] then worker else Erase(Server.Closed(worker, ids[0]), ids[1..])
  }

  ghost predicate CanHappen(h: Host, id: nat, e: Event) {
    id in h.admitted && Fits(h.admitted[id]) && Possible(h.admitted[id], e)
  }

  function Act(h: Host, id: nat, e: Event): Host
    requires CanHappen(h, id, e)
  {
    var next := Step(h.admitted[id], e);
    Host(Erase(h.worker, Reported(h.admitted[id], next)), h.admitted[id := next])
  }

  /** The connection has made a run of its own. */
  ghost predicate HasRun(limits: Limits, id: nat, c: Conn) {
    exists events :: Reached(limits, id, events, c)
  }

  lemma StartsItsRun(limits: Limits, id: nat)
    requires limits.Valid()
    ensures HasRun(limits, id, Begin(limits, id))
  {
    hide Begin;
    assert Reached(limits, id, [], Begin(limits, id));
  }

  lemma GoesOnWithItsRun(limits: Limits, id: nat, c: Conn, e: Event)
    requires HasRun(limits, id, c) && Fits(c) && Possible(c, e)
    ensures Inv(c) && c.id == id && HasRun(limits, id, Step(c, e))
  {
    hide Begin, Inv, Step, Possible, Fits;
    var events :| Reached(limits, id, events, c);
    RunOne(c, e);
    RunAppend(Begin(limits, id), events, [e]);
    assert Reached(limits, id, events + [e], Step(c, e));
    ReachedKeeps(limits, id, events, c);
    BeginConstants(limits, id);
    RunConstants(Begin(limits, id), events);
  }

  /** What a host promises: every connection has made a run of its own, and the table is those that are open. */
  ghost predicate HostOk(h: Host, limits: Limits) {
    && (forall id: nat :: id in h.admitted <==> id < h.worker.nextId)
    && (forall id: nat :: id in h.admitted ==> HasRun(limits, id, h.admitted[id]))
    && (forall id: nat :: id in h.worker.connections <==> id in h.admitted && h.admitted[id].phase != Closed)
  }

  lemma IdleIsOk(limits: Limits)
    ensures HostOk(IDLE_HOST, limits)
  {
  }

  lemma AdmitKeeps(h: Host, limits: Limits, limit: nat)
    requires HostOk(h, limits) && limits.Valid()
    ensures HostOk(Admit(h, limits, limit), limits)
  {
    hide HasRun, Begin;
    StartsItsRun(limits, h.worker.nextId);
    BeginConstants(limits, h.worker.nextId);
  }

  /** A step reports closing when it closes, and then once. */
  lemma ReportsOnce(c: Conn, e: Event)
    requires Inv(c) && Possible(c, e)
    ensures Fits(c)
    ensures Reported(c, Step(c, e)) == if c.phase != Closed && Step(c, e).phase == Closed then [c.id] else []
    ensures c.phase == Closed ==> Step(c, e).phase == Closed
  {
    hide Step, Possible, BufferOk, PhaseOk, HistoryOk;
    StepKeeps(c, e);
    StepConstants(c, e);
    if c.phase == Closed {
      ClosedStep(c, e);
    }
  }

  lemma ActKeeps(h: Host, limits: Limits, id: nat, e: Event)
    requires HostOk(h, limits) && CanHappen(h, id, e)
    ensures HostOk(Act(h, id, e), limits)
    ensures var reported := Reported(h.admitted[id], Step(h.admitted[id], e));
            && Act(h, id, e).worker == (if reported == [] then h.worker else Server.Closed(h.worker, id))
            && (reported != [] ==> id in h.worker.connections)
  {
    hide HasRun, Inv, Step, Possible, Fits, Reported;
    GoesOnWithItsRun(limits, id, h.admitted[id], e);
    ReportsOnce(h.admitted[id], e);
    EraseOne(h.worker, id);
  }

  lemma EraseOne(worker: Server.Worker, id: nat)
    ensures Erase(worker, [id]) == Server.Closed(worker, id)
  {
    assert [id][1..] == [];
  }

  // ---------- all workers ----------

  ghost predicate CanStep(hosts: seq<Host>, e: HostEvent) {
    && e.host < |hosts|
    && (e.Happens? ==> CanHappen(hosts[e.host], e.id, e.event))
  }

  function HostStep(hosts: seq<Host>, e: HostEvent, limits: Limits): (next: seq<Host>)
    requires CanStep(hosts, e)
    ensures |next| == |hosts|
  {
    match e
    case Arrives(w) => hosts[w := Admit(hosts[w], limits, Server.WorkerLimit(limits.maxConnections, |hosts|))]
    case Happens(w, id, event) => hosts[w := Act(hosts[w], id, event)]
  }

  ghost predicate HostRuns(hosts: seq<Host>, events: seq<HostEvent>, limits: Limits)
    decreases |events|
  {
    events == [] || (CanStep(hosts, events[0]) && HostRuns(HostStep(hosts, events[0], limits), events[1..], limits))
  }

  ghost function HostRun(hosts: seq<Host>, events: seq<HostEvent>, limits: Limits): (end: seq<Host>)
    requires HostRuns(hosts, events, limits)
    ensures |end| == |hosts|
    decreases |events|
  {
    if events == [] then hosts else HostRun(HostStep(hosts, events[0], limits), events[1..], limits)
  }

  /** What the tables see of a step: an accept, or a close callback. */
  ghost function Seen(hosts: seq<Host>, e: HostEvent): seq<Server.Event>
    requires CanStep(hosts, e)
  {
    match e
    case Arrives(w) => [Server.Accepted(w)]
    case Happens(w, id, event) =>
      if Reported(hosts[w].admitted[id], Step(hosts[w].admitted[id], event)) == [] then []
      else [Server.ConnectionClosed(w, id)]
  }

  function Tables(hosts: seq<Host>): (ws: seq<Server.Worker>)
    ensures |ws| == |hosts|
    ensures forall i :: 0 <= i < |hosts| ==> ws[i] == hosts[i].worker
  {
    seq(|hosts|, i requires 0 <= i < |hosts| => hosts[i].worker)
  }

  /** The tables are those of a history of accepts and of close callbacks that came from connections in them. */
  ghost predicate Agrees(hosts: seq<Host>, past: seq<Server.Event>, limits: Limits) {
    && Server.AllInRange(past, |hosts|) && Server.Genuine(|hosts|, past, limits.maxConnections)
    && Tables(hosts) == Server.Run(|hosts|, past, limits.maxConnections)
    && forall i :: 0 <= i < |hosts| ==> HostOk(hosts[i], limits)
  }

  lemma GenuineStep(workers: nat, past: seq<Server.Event>, e: Server.Event, maxConnections: nat)
    requires Server.AllInRange(past, workers) && Server.Genuine(workers, past, maxConnections)
    requires Server.InRange(e, workers)
    requires e.ConnectionClosed? ==> e.id in Server.Run(workers, past, maxConnections)[e.worker].connections
    ensures Server.AllInRange(past + [e], workers) && Server.Genuine(workers, past + [e], maxConnections)
  {
    hide Server.Run;
    assert (past + [e])[..|past|] == past;
  }

  lemma StepAgrees(hosts: seq<Host>, past: seq<Server.Event>, e: HostEvent, limits: Limits)
    requires Agrees(hosts, past, limits) && CanStep(hosts, e) && limits.Valid()
    ensures Agrees(HostStep(hosts, e, limits), past + Seen(hosts, e), limits)
  {
    hide HostOk, Admit, Act, Server.Run, Server.Genuine, Server.WorkerLimit, CanHappen, Reported, Step, Server.Accept,
         Server.Closed;
    var w, limit := e.host, Server.WorkerLimit(limits.maxConnections, |hosts|);
    var next := HostStep(hosts, e, limits);
    match e
    case Arrives(_) =>
      AdmitKeeps(hosts[w], limits, limit);
      AdmitAccepts(hosts[w], limits, limit);
      GenuineStep(|hosts|, past, Server.Accepted(w), limits.maxConnections);
      Server.RunStep(|hosts|, past, Server.Accepted(w), limits.maxConnections);
      assert Tables(next) == Tables(hosts)[w := next[w].worker];
    case Happens(_, id, event) =>
      ActKeeps(hosts[w], limits, id, event);
      if Seen(hosts, e) == [] {
        assert past + [] == past && Tables(next) == Tables(hosts);
      } else {
        var closed := Server.ConnectionClosed(w, id);
        GenuineStep(|hosts|, past, closed, limits.maxConnections);
        Server.RunStep(|hosts|, past, closed, limits.maxConnections);
        assert Tables(next) == Tables(hosts)[w := next[w].worker];
      }
  }

  lemma AdmitAccepts(h: Host, limits: Limits, limit: nat)
    ensures Admit(h, limits, limit).worker == Server.Accept(h.worker, limit)
  {
  }

  lemma {:induction false} RunAgrees(hosts: seq<Host>, past: seq<Server.Event>, events: seq<HostEvent>, limits: Limits)
      returns (trace: seq<Server.Event>)
    requires Agrees(hosts, past, limits) && HostRuns(hosts, events, limits) && limits.Valid()
    ensures Agrees(HostRun(hosts, events, limits), trace, limits)
    decreases |events|
  {
    hide Agrees, HostStep, CanStep, Seen;
    if events == [] {
      trace := past;
    } else {
      StepAgrees(hosts, past, events[0], limits);
      trace := RunAgrees(HostStep(hosts, events[0], limits), past + Seen(hosts, events[0]), events[1..], limits);
    }
  }

  function Idle(workers: nat): seq<Host> {
    seq(workers, _ => IDLE_HOST)
  }

  lemma IdleAgrees(workers: nat, limits: Limits)
    ensures Agrees(Idle(workers), [], limits)
  {
    hide HostOk;
    IdleIsOk(limits);
  }

  /** The connections that are open. */
  ghost function Open(h: Host): set<nat> {
    set id | id in h.admitted && h.admitted[id].phase != Closed
  }

  ghost function TotalOpen(hosts: seq<Host>): nat {
    if hosts == [] then 0 else TotalOpen(hosts[..|hosts| - 1]) + |Open(hosts[|hosts| - 1])|
  }

  lemma {:induction false} TotalsAgree(hosts: seq<Host>)
    requires forall i :: 0 <= i < |hosts| ==> hosts[i].worker.connections == Open(hosts[i])
    ensures TotalOpen(hosts) == Server.Total(Tables(hosts))
  {
    hide Open;
    if hosts != [] {
      var front := hosts[..|hosts| - 1];
      TotalsAgree(front);
      assert Tables(hosts)[..|front|] == Tables(front);
    }
  }

  /**
   Over any interleaving of accepts and of events at connections, on any workers: every connection makes a run of its
   own under its own id, each table holds exactly the connections that are open, and at most max(1024 W,
   max_connections) are open in all.
   */
  lemma OpenConnectionsAreBounded(workers: nat, events: seq<HostEvent>, limits: Limits)
    requires workers > 0 && limits.Valid() && HostRuns(Idle(workers), events, limits)
    ensures var hosts := HostRun(Idle(workers), events, limits);
            && (forall i :: 0 <= i < workers ==>
                  HostOk(hosts[i], limits) && hosts[i].worker.connections == Open(hosts[i]))
            && TotalOpen(hosts) <= Max(workers * Server.WORKER_FLOOR, limits.maxConnections)
  {
    hide HasRun, Server.Run, Server.Genuine, HostRuns, HostRun;
    IdleAgrees(workers, limits);
    var trace := RunAgrees(Idle(workers), [], events, limits);
    Server.AdmissionIsBounded(workers, trace, limits.maxConnections);
    TotalsAgree(HostRun(Idle(workers), events, limits));
  }
}
