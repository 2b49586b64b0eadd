/** Admission: how many connections a server holds, over any interleaving of accepts and closes. */
module Server {
  import opened Prelude

  const WORKER_FLOOR: nat := 1024

  /** `worker_limit()`. */
  function WorkerLimit(maxConnections: nat, workers: nat): nat {
    Max(WORKER_FLOOR, maxConnections / Max(1, workers))
  }

  /** A worker's connection table, by id, and the next id. */
  datatype Worker = Worker(connections: set<nat>, nextId: nat)

  const IDLE_WORKER: Worker := Worker({}, 0)

  /** A socket has been accepted: it gets an id and a table entry, or is dropped when the table is full. */
  function Accept(w: Worker, limit: nat): Worker {
    if |w.connections| < limit then w.(connections := w.connections + {w.nextId}, nextId := w.nextId + 1) else w
  }

  /** A connection's close callback. */
  function Closed(w: Worker, id: nat): Worker {
    w.(connections := w.connections - {id})
  }

  class WorkerContext {
    var connections: set<nat>
    var nextId: nat

    function Value(): Worker
      reads this
    {
      Worker(connections, nextId)
    }

    constructor ()
      ensures Value() == IDLE_WORKER
    {
      connections, nextId := {}, 0;
    }

    method OnAccept(limit: nat) returns (id: Option<nat>)
      modifies this
      ensures Value() == Accept(old(Value()), limit)
      ensures id == if |old(connections)| < limit then Some(old(nextId)) else None
    {
      if |connections| < limit {
        id := Some(nextId);
        connections := connections + {nextId};
        nextId := nextId + 1;
      } else {
        id := None;
      }
    }

    method OnClose(id: nat)
      modifies this
      ensures Value() == Closed(old(Value()), id)
    {
      connections := connections - {id};
    }
  }

  // ---------- runs of a whole server ----------

  datatype Event = Accepted(worker: nat) | ConnectionClosed(worker: nat, id: nat)

  predicate InRange(e: Event, workers: nat) {
    e.worker < workers
  }

  ghost predicate AllInRange(events: seq<Event>, workers: nat) {
    forall i :: 0 <= i < |events| ==> InRange(events[i], workers)
  }

  function Step(ws: seq<Worker>, e: Event, maxConnections: nat): (r: seq<Worker>)
    requires InRange(e, |ws|)
    ensures |r| == |ws|
  {
    match e
    case Accepted(w) => ws[w := Accept(ws[w], WorkerLimit(maxConnections, |ws|))]
    case ConnectionClosed(w, id) => ws[w := Closed(ws[w], id)]
  }

  function Run(workers: nat, events: seq<Event>, maxConnections: nat): (ws: seq<Worker>)
    requires AllInRange(events, workers)
    ensures |ws| == workers
  {
    if events == [] then seq(workers, _ => IDLE_WORKER)
    else Step(Run(workers, events[..|events| - 1], maxConnections), events[|events| - 1], maxConnections)
  }

  function Total(ws: seq<Worker>): nat {
    if ws == [] then 0 else Total(ws[..|ws| - 1]) + |ws[|ws| - 1].connections|
  }

  /** Every id in the table was handed out, and the table is within its limit. */
  ghost predicate WorkerOk(w: Worker, limit: nat) {
    |w.connections| <= limit && forall id :: id in w.connections ==> id < w.nextId
  }

  lemma AcceptKeeps(w: Worker, limit: nat)
    requires WorkerOk(w, limit)
    ensures WorkerOk(Accept(w, limit), limit)
  {
  }

  lemma ClosedKeeps(w: Worker, id: nat, limit: nat)
    requires WorkerOk(w, limit)
    ensures WorkerOk(Closed(w, id), limit)
  {
  }

  /** In every run each worker keeps its table within its limit. */
  lemma {:induction false} RunKeeps(workers: nat, events: seq<Event>, maxConnections: nat)
    requires AllInRange(events, workers)
    ensures forall w :: w in Run(workers, events, maxConnections) ==> WorkerOk(w, WorkerLimit(maxConnections, workers))
  {
    hide WorkerOk, WorkerLimit, Accept, Closed;
    var limit := WorkerLimit(maxConnections, workers);
    if events == [] {
      IdleIsOk(limit);
    } else {
      var n := |events| - 1;
      RunKeeps(workers, events[..n], maxConnections);
      var e, ws := events[n], Run(workers, events[..n], maxConnections);
      assert ws[e.worker] in ws;
      AcceptKeeps(ws[e.worker], limit);
      if e.ConnectionClosed? {
        ClosedKeeps(ws[e.worker], e.id, limit);
      }
    }
  }

  lemma IdleIsOk(limit: nat)
    ensures WorkerOk(IDLE_WORKER, limit)
  {
  }

  lemma {:induction false} TotalAtMost(ws: seq<Worker>, limit: nat)
    requires forall w :: w in ws ==> |w.connections| <= limit
    ensures Total(ws) <= |ws| * limit
  {
    if ws != [] {
      TotalAtMost(ws[..|ws| - 1], limit);
    }
  }

  lemma LimitTimesWorkers(maxConnections: nat, workers: nat)
    requires workers > 0
    ensures workers * WorkerLimit(maxConnections, workers) <= Max(workers * WORKER_FLOOR, maxConnections)
  {
  }

  /** Over any run no table exceeds its limit, and all tables together hold at most max(1024 W, max_connections). */
  lemma AdmissionIsBounded(workers: nat, events: seq<Event>, maxConnections: nat)
    requires workers > 0 && AllInRange(events, workers)
    ensures Total(Run(workers, events, maxConnections)) <= Max(workers * WORKER_FLOOR, maxConnections)
  {
    RunKeeps(workers, events, maxConnections);
    TotalAtMost(Run(workers, events, maxConnections), WorkerLimit(maxConnections, workers));
    LimitTimesWorkers(maxConnections, workers);
  }

  /** An accept admits under the next id exactly below 1024 connections or below the worker's share of the maximum. */
  lemma AdmittedExactlyBelowShare(workers: nat, events: seq<Event>, maxConnections: nat, w: nat)
    requires w < workers && AllInRange(events, workers)
    ensures AllInRange(events + [Accepted(w)], workers)
    ensures var before, after := Run(workers, events, maxConnections)[w],
                                 Run(workers, events + [Accepted(w)], maxConnections)[w];
            && before.nextId !in before.connections
            && after == if |before.connections| < 1024 || |before.connections| < maxConnections / workers
                        then Worker(before.connections + {before.nextId}, before.nextId + 1) else before
  {
    hide Run;
    RunKeeps(workers, events, maxConnections);
    RunStep(workers, events, Accepted(w), maxConnections);
    assert Run(workers, events, maxConnections)[w] in Run(workers, events, maxConnections);
  }

  // ---------- the configured maximum ----------

  lemma RunStep(workers: nat, events: seq<Event>, e: Event, maxConnections: nat)
    requires InRange(e, workers) && AllInRange(events, workers)
    ensures AllInRange(events + [e], workers)
    ensures Run(workers, events + [e], maxConnections) == Step(Run(workers, events, maxConnections), e, maxConnections)
  {
  }

  lemma AcceptAddsOne(w: Worker, limit: nat)
    requires WorkerOk(w, limit) && |w.connections| < limit
    ensures |Accept(w, limit).connections| == |w.connections| + 1
  {
  }

  /** Accepts fill a worker's table up to its limit. */
  lemma {:induction false} FillWorker(workers: nat, events: seq<Event>, maxConnections: nat, w: nat)
      returns (more: seq<Event>)
    requires w < workers && AllInRange(events, workers)
    ensures AllInRange(more, workers)
    ensures var before, after := Run(workers, events, maxConnections), Run(workers, more, maxConnections);
            && |after[w].connections| == WorkerLimit(maxConnections, workers)
            && forall i :: 0 <= i < workers && i != w ==> after[i] == before[i]
    decreases WorkerLimit(maxConnections, workers) - |Run(workers, events, maxConnections)[w].connections|
  {
    hide WorkerLimit, Run, Accept;
    var limit, ws := WorkerLimit(maxConnections, workers), Run(workers, events, maxConnections);
    RunKeeps(workers, events, maxConnections);
    assert ws[w] in ws;
    if |ws[w].connections| == limit {
      more := events;
    } else {
      RunStep(workers, events, Accepted(w), maxConnections);
      AcceptAddsOne(ws[w], limit);
      more := FillWorker(workers, events + [Accepted(w)], maxConnections, w);
    }
  }

  lemma {:induction false} FillWorkers(workers: nat, maxConnections: nat, n: nat) returns (events: seq<Event>)
    requires n <= workers
    ensures AllInRange(events, workers)
    ensures forall i :: 0 <= i < n ==>
              |Run(workers, events, maxConnections)[i].connections| == WorkerLimit(maxConnections, workers)
  {
    hide WorkerLimit, Run;
    if n == 0 {
      events := [];
    } else {
      var before := FillWorkers(workers, maxConnections, n - 1);
      events := FillWorker(workers, before, maxConnections, n - 1);
    }
  }

  lemma {:induction false} TotalOfFull(ws: seq<Worker>, limit: nat)
    requires forall i :: 0 <= i < |ws| ==> |ws[i].connections| == limit
    ensures Total(ws) == |ws| * limit
  {
    if ws != [] {
      TotalOfFull(ws[..|ws| - 1], limit);
    }
  }

  lemma FloorTimesWorkers(maxConnections: nat, workers: nat)
    ensures workers * WORKER_FLOOR <= workers * WorkerLimit(maxConnections, workers)
  {
  }

  /**
   `max_connections` bounds the connections of every run exactly when it leaves each worker its floor of 1024;
   below that, the floor wins and some run holds more.
   */
  lemma MaximumHoldsExactlyAboveFloor(workers: nat, maxConnections: nat)
    requires workers > 0
    ensures workers * WORKER_FLOOR <= maxConnections <==>
              forall events :: AllInRange(events, workers) ==>
                Total(Run(workers, events, maxConnections)) <= maxConnections
  {
    hide WorkerLimit, Run, Total;
    if workers * WORKER_FLOOR <= maxConnections {
      forall events | AllInRange(events, workers)
        ensures Total(Run(workers, events, maxConnections)) <= maxConnections
      {
        AdmissionIsBounded(workers, events, maxConnections);
      }
    } else {
      var events := FillWorkers(workers, maxConnections, workers);
      TotalOfFull(Run(workers, events, maxConnections), WorkerLimit(maxConnections, workers));
      FloorTimesWorkers(maxConnections, workers);
      assert AllInRange(events, workers);
    }
  }

  /** The most connections that any run holds: every worker full, up to 1024 or its share of the maximum. */
  lemma MostConnections(workers: nat, maxConnections: nat) returns (fullest: seq<Event>)
    requires workers > 0
    ensures AllInRange(fullest, workers)
    ensures Total(Run(workers, fullest, maxConnections)) == workers * Max(1024, maxConnections / workers)
    ensures forall events :: AllInRange(events, workers) ==>
              Total(Run(workers, events, maxConnections)) <= workers * Max(1024, maxConnections / workers)
  {
    hide Run, Total;
    fullest := FillWorkers(workers, maxConnections, workers);
    TotalOfFull(Run(workers, fullest, maxConnections), WorkerLimit(maxConnections, workers));
    forall events | AllInRange(events, workers)
      ensures Total(Run(workers, events, maxConnections)) <= workers * Max(1024, maxConnections / workers)
    {
      RunKeeps(workers, events, maxConnections);
      TotalAtMost(Run(workers, events, maxConnections), WorkerLimit(maxConnections, workers));
    }
  }

  // ---------- the table ----------

  /** Close callbacks only come from connections in the table: each connection reports closing once. */
  ghost predicate Genuine(workers: nat, events: seq<Event>, maxConnections: nat)
    requires AllInRange(events, workers)
  {
    events == [] ||
    var n := |events| - 1;
    var ws := Run(workers, events[..n], maxConnections);
    && Genuine(workers, events[..n], maxConnections)
    && (events[n].ConnectionClosed? ==> events[n].id in ws[events[n].worker].connections)
  }

  /** The ids of a worker's connections that have closed. */
  function ClosedIds(events: seq<Event>, w: nat): set<nat> {
    if events == [] then {}
    else
      var n := |events| - 1;
      ClosedIds(events[..n], w)
      + if events[n].ConnectionClosed? && events[n].worker == w then {events[n].id} else {}
  }

  ghost predicate TableIs(w: Worker, closed: set<nat>) {
    && (forall id: nat :: id in closed ==> id < w.nextId)
    && (forall id: nat :: id in w.connections <==> id < w.nextId && id !in closed)
  }

  lemma TableAfterAccept(w: Worker, closed: set<nat>, limit: nat)
    requires TableIs(w, closed)
    ensures TableIs(Accept(w, limit), closed)
  {
  }

  lemma TableAfterClose(w: Worker, closed: set<nat>, id: nat)
    requires TableIs(w, closed) && id in w.connections
    ensures TableIs(Closed(w, id), closed + {id})
  {
  }

  /** A table holds exactly the connections whose ids were handed out and have not closed since. */
  lemma {:induction false} TableIsAdmittedNotClosed(workers: nat, events: seq<Event>, maxConnections: nat, w: nat)
    requires w < workers && AllInRange(events, workers) && Genuine(workers, events, maxConnections)
    ensures TableIs(Run(workers, events, maxConnections)[w], ClosedIds(events, w))
  {
    hide TableIs, Accept, Closed, WorkerLimit;
    if events == [] {
      EmptyTable();
    } else {
      var n := |events| - 1;
      var e, ws, closed := events[n], Run(workers, events[..n], maxConnections), ClosedIds(events[..n], w);
      TableIsAdmittedNotClosed(workers, events[..n], maxConnections, w);
      assert closed + {} == closed;
      if e.worker == w {
        TableAfterAccept(ws[w], closed, WorkerLimit(maxConnections, workers));
        if e.ConnectionClosed? {
          TableAfterClose(ws[w], closed, e.id);
        }
      }
    }
  }

  lemma EmptyTable()
    ensures TableIs(IDLE_WORKER, {})
  {
  }

  /** Later admissions get larger ids. */
  lemma {:induction false} IdsOnlyGrow(workers: nat, events: seq<Event>, n: nat, maxConnections: nat, w: nat)
    requires w < workers && AllInRange(events, workers) && n <= |events|
    ensures AllInRange(events[..n], workers)
    ensures Run(workers, events[..n], maxConnections)[w].nextId <= Run(workers, events, maxConnections)[w].nextId
    ensures forall i :: n <= i < |events| && events[i] == Accepted(w)
              && |Run(workers, events[..i], maxConnections)[w].connections| < WorkerLimit(maxConnections, workers)
              ==> Run(workers, events[..n], maxConnections)[w].nextId < Run(workers, events, maxConnections)[w].nextId
    decreases |events|
  {
    if n == |events| {
      assert events[..n] == events;
    } else {
      var front := events[..|events| - 1];
      IdsOnlyGrow(workers, front, n, maxConnections, w);
      assert front[..n] == events[..n];
      assert forall i :: 0 <= i < |front| ==> front[..i] == events[..i];
    }
  }
}
