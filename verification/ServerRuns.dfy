/** Whole runs of the caching server's request tables. */
module ServerRuns {
  import opened Collections
  import opened HandOut
  import opened ServerTables
  import opened Subservers

  datatype Event =
    | Start(key: string, srv: string, refusals: seq<bool>, retry: bool)   // a client asks
    | Forget(key: string)                                  // no client is interested any more
    | Sent(server: nat)                                    // a query has been sent to the end
    | Result(server: nat, id: nat)                         // a server answers
    | Died(server: nat)                                    // a server closes, or cannot be connected to
    | Tick(refusals: seq<bool>, retry: bool)               // the main loop comes round

  /** The tables at one moment. */
  datatype State = State(ss: seq<Server>, dead: seq<nat>, reqs: seq<Request>, place: map<Request, Place>)
  {
    ghost predicate Valid()
    {
      Placed(ss, reqs, place) && LoadOf(ss, dead).Valid()
    }
  }

  /** Requests are handed out: none is lost or new, every server gets what the specification of a call gives it,
      and unless a connection fails, requests leave the queue at its head and none is taken off a server. */
  ghost predicate Dished(s: State, refusals: seq<bool>, retry: bool, s': State)
  {
    && s'.place.Keys == s.place.Keys && |s'.ss| == |s.ss| && LoadOf(s.ss, s.dead).Valid()
    && LoadOf(s'.ss, s'.dead) == AfterCall(LoadOf(s.ss, s.dead), FreePlaces(s.ss, s.dead), |s.reqs|, refusals, retry)
    && (AllGranted(refusals) ==> HandedOut(s.reqs, s'.reqs, s.place, s'.place))
  }

  /** Place `id` of server `i` holds a query that was sent in full. */
  predicate Answerable(s: State, i: nat, id: nat)
  {
    i < |s.ss| && id < |s.ss[i].oq| && s.ss[i].oq[id].Query? && s.ss[i].oq[id].sent
  }

  /** What an event does, when `n` requests have been accepted before, and what is delivered.  A server answers only
      queries it was sent, closes only while it is busy, and can be sent to only while it has something to send;
      other events do not happen. */
  ghost predicate EventStep(s: State, e: Event, n: nat, delivered: Option<Request>, s': State)
  {
    match e
    case Start(key, srv, refusals, retry) =>
      var req := Request(n, key, srv);
      var queued := s.(reqs := s.reqs + [req], place := s.place[req := Queued]);
      delivered.None? && req !in s.place && if s.reqs == [] then Dished(queued, refusals, retry, s') else s' == queued
    case Forget(key) =>
      && delivered.None? && s'.ss == s.ss && s'.dead == s.dead && s'.reqs == Dropped(s.reqs, key)
      && (forall r :: r in s'.place <==> r in s.place && !(s.place[r] == Queued && r.key == key))
      && (forall r | r in s'.place :: s'.place[r] == s.place[r])
    case Sent(i) =>
      && delivered.None?
      && if i < |s.ss| && 0 <= s.ss[i].head < |s.ss[i].oq| && s.ss[i].oq[s.ss[i].head].Query? then
           s' == s.(ss := s.ss[i := SentHead(s.ss[i])])
         else s' == s
    case Result(i, id) =>
      if Answerable(s, i, id) then
        var r := s.ss[i].oq[id].req;
        && delivered == Some(r) && r in s.place && s.place[r] == At(i, id)
        && s' == s.(ss := s.ss[i := Answered(s.ss[i], id)], place := s.place - {r})
      else delivered.None? && s' == s
    case Died(i) =>
      && delivered.None?
      && if i < |s.ss| && s.ss[i].noq > 0 then
           && BackInQueue(s.place, s'.place, i) && s'.dead == s.dead + [i]
           && |s'.reqs| >= |s.reqs| && s'.reqs[|s'.reqs| - |s.reqs|..] == s.reqs
           && |s'.ss| == |s.ss| && (forall j | 0 <= j < |s.ss| && j != i :: s'.ss[j] == s.ss[j])
         else s' == s
    case Tick(refusals, retry) => delivered.None? && Dished(s, refusals, retry, s')
  }

  /** The requests that a run accepts, numbered in order. */
  function Accepted(events: seq<Event>): (r: seq<Request>)
    ensures |r| <= |events|
    ensures forall k | 0 <= k < |r| :: r[k].id == k
  {
    if events == [] then [] else
      var before := Accepted(events[..|events| - 1]);
      match events[|events| - 1]
      case Start(key, srv, _, _) => before + [Request(|before|, key, srv)]
      case _ => before
  }

  ghost predicate StepAt(states: seq<State>, events: seq<Event>, deliveries: seq<Option<Request>>, i: nat)
    requires i < |events| == |deliveries| && |states| == |events| + 1
  {
    EventStep(states[i], events[i], |Accepted(events[..i])|, deliveries[i], states[i + 1])
  }

  /** The run goes through these states, with these deliveries. */
  ghost predicate RunsThrough(events: seq<Event>, states: seq<State>, deliveries: seq<Option<Request>>)
  {
    && |deliveries| == |events| && |states| == |events| + 1 && states[0].place == map[]
    && (forall i {:trigger StepAt(states, events, deliveries, i)} | 0 <= i < |events| ::
          StepAt(states, events, deliveries, i))
    && (forall i | 0 <= i < |states| :: states[i].Valid())
  }

  /** A request was taken out of the queue because nobody was interested in it any more. */
  ghost predicate Forgotten(events: seq<Event>, states: seq<State>, r: Request)
  {
    exists i :: 0 <= i < |events| && i < |states| && events[i] == Forget(r.key)
                && r in states[i].place && states[i].place[r] == Queued
  }

  /** Which requests are open after an event. */
  lemma StepOpen(s: State, e: Event, n: nat, delivered: Option<Request>, s': State)
    requires EventStep(s, e, n, delivered, s')
    ensures delivered.Some? ==> delivered.value in s.place
    ensures e.Start? ==> Request(n, e.key, e.srv) !in s.place
    ensures forall r :: r in s'.place <==>
              (r in s.place && delivered != Some(r) && !(e == Forget(r.key) && s.place[r] == Queued)) ||
              (e.Start? && r == Request(n, e.key, e.srv))
  {
    match e
    case Start(key, srv, _, _) =>
      var req := Request(n, key, srv);
      assert s'.place.Keys == s.place.Keys + {req};
      forall r ensures r in s'.place <==> r in s.place || r == req { assert r in s'.place <==> r in s'.place.Keys; }
    case Died(i) => forall r ensures r in s'.place <==> r in s.place { assert r in s'.place <==> r in s'.place.Keys; }
    case Tick(_, _) => forall r ensures r in s'.place <==> r in s.place { assert r in s'.place <==> r in s'.place.Keys; }
    case _ =>
  }

  /** What has become of a request that a run has or has not accepted. */
  ghost predicate Accounted(events: seq<Event>, states: seq<State>, deliveries: seq<Option<Request>>, r: Request)
    requires |states| == |events| + 1
  {
    var open := r in states[|events|].place;
    && (r in Accepted(events) <==> open || Some(r) in deliveries || Forgotten(events, states, r))
    && !(open && Some(r) in deliveries) && !(open && Forgotten(events, states, r))
    && !(Some(r) in deliveries && Forgotten(events, states, r))
  }

  lemma RunPrefix(events: seq<Event>, states: seq<State>, deliveries: seq<Option<Request>>)
    requires RunsThrough(events, states, deliveries) && events != []
    ensures var n := |events| - 1; RunsThrough(events[..n], states[..n + 1], deliveries[..n])
  {
    var n := |events| - 1;
    var es, ss, ds := events[..n], states[..n + 1], deliveries[..n];
    forall i | 0 <= i < n ensures StepAt(ss, es, ds, i) {
      assert StepAt(states, events, deliveries, i) && es[..i] == events[..i];
    }
  }

  lemma ForgottenStep(events: seq<Event>, states: seq<State>, r: Request)
    requires events != [] && |states| == |events| + 1
    ensures var n := |events| - 1;
            Forgotten(events, states, r) <==>
            Forgotten(events[..n], states[..n + 1], r) ||
            (events[n] == Forget(r.key) && r in states[n].place && states[n].place[r] == Queued)
  {
    var n := |events| - 1;
    if Forgotten(events[..n], states[..n + 1], r) {
      var i :| 0 <= i < n && events[..n][i] == Forget(r.key) && r in states[..n + 1][i].place
               && states[..n + 1][i].place[r] == Queued;
      assert events[i] == Forget(r.key);
    }
    if Forgotten(events, states, r) {
      var i :| 0 <= i < |events| && events[i] == Forget(r.key) && r in states[i].place && states[i].place[r] == Queued;
      assert i < n ==> events[..n][i] == Forget(r.key);
    }
  }

  /** Conservation: in any run a request is accepted if and only if it is open, delivered or forgotten; it is only
      one of these, and it is delivered once. */
  lemma {:induction false} Conservation(events: seq<Event>, states: seq<State>, deliveries: seq<Option<Request>>)
    requires RunsThrough(events, states, deliveries)
    ensures forall r :: Accounted(events, states, deliveries, r)
    ensures forall i, j | 0 <= i < j < |deliveries| && deliveries[i].Some? :: deliveries[i] != deliveries[j]
  {
    if events == [] {
      assert states[0].place == map[];
    } else {
      var n := |events| - 1;
      var es, ss, ds := events[..n], states[..n + 1], deliveries[..n];
      RunPrefix(events, states, deliveries);
      Conservation(es, ss, ds);
      assert StepAt(states, events, deliveries, n);
      StepOpen(states[n], events[n], |Accepted(es)|, deliveries[n], states[n + 1]);
      assert deliveries == ds + [deliveries[n]];
      forall r ensures Accounted(events, states, deliveries, r) {
        assert Accounted(es, ss, ds, r);
        ForgottenStep(events, states, r);
      }
      if deliveries[n].Some? {
        assert Accounted(es, ss, ds, deliveries[n].value);
      }
    }
  }

  /** Open requests have been accepted, so the next number is new. */
  lemma OpenIdsBelow(events: seq<Event>, states: seq<State>, deliveries: seq<Option<Request>>)
    requires RunsThrough(events, states, deliveries)
    ensures forall r | r in states[|events|].place :: r.id < |Accepted(events)|
  {
    Conservation(events, states, deliveries);
    forall r | r in states[|events|].place ensures r.id < |Accepted(events)| {
      assert Accounted(events, states, deliveries, r);
    }
  }

  lemma RunExtends(events: seq<Event>, n: nat, states: seq<State>, deliveries: seq<Option<Request>>,
                   delivered: Option<Request>, s: State)
    requires n < |events| && RunsThrough(events[..n], states, deliveries) && s.Valid()
    requires EventStep(states[n], events[n], |Accepted(events[..n])|, delivered, s)
    ensures RunsThrough(events[..n + 1], states + [s], deliveries + [delivered])
  {
    var es, ss, ds := events[..n + 1], states + [s], deliveries + [delivered];
    forall i | 0 <= i < n + 1 ensures StepAt(ss, es, ds, i) {
      assert es[..i] == events[..n][..i] == events[..i] && es[i] == events[i];
      if i < n {
        assert StepAt(states, events[..n], deliveries, i) && events[..n][i] == events[i];
        assert ss[i] == states[i] && ss[i + 1] == states[i + 1] && ds[i] == deliveries[i];
      } else {
        assert ss[i] == states[n] && ss[i + 1] == s && ds[i] == delivered;
      }
    }
  }

  ghost function Snapshot(c: SubServerCollection): State
    reads c
  {
    State(c.ss, c.dead, c.reqs, c.place)
  }

  method HandleStart(c: SubServerCollection, req: Request, refusals: seq<bool>, retry: bool)
    requires c.Valid() && forall r | r in c.Open() :: r.id < req.id
    modifies c
    ensures c.Valid() && EventStep(old(Snapshot(c)), Start(req.key, req.srv, refusals, retry), req.id, None, Snapshot(c))
  {
    c.StartReq(req, refusals, retry);
    assert old(c.reqs) == [] ==> old(c.reqs) + [req] == [req];
  }

  method HandleForget(c: SubServerCollection, key: string, ghost n: nat)
    requires c.Valid()
    modifies c
    ensures c.Valid() && EventStep(old(Snapshot(c)), Forget(key), n, None, Snapshot(c))
  {
    c.DeleteReq(key);
  }

  method HandleSent(c: SubServerCollection, i: nat, ghost n: nat)
    requires c.Valid()
    modifies c
    ensures c.Valid() && EventStep(old(Snapshot(c)), Sent(i), n, None, Snapshot(c))
  {
    if i < |c.ss| {
      assert ListedOk(c.ss, c.chains, c.sending, c.receiving, i);
      if c.ss[i].head >= 0 {
        c.QuerySent(i);
      }
    }
  }

  method HandleResult(c: SubServerCollection, i: nat, id: nat, ghost n: nat) returns (delivered: Option<Request>)
    requires c.Valid()
    modifies c
    ensures c.Valid() && EventStep(old(Snapshot(c)), Result(i, id), n, delivered, Snapshot(c))
  {
    delivered := None;
    if i < |c.ss| && id < |c.ss[i].oq| && c.ss[i].oq[id].Query? && c.ss[i].oq[id].sent {
      assert ListedOk(c.ss, c.chains, c.sending, c.receiving, i);
      SlotChange(c.ss[i].oq, id, Empty);
      var ok, req := c.ExtractResult(i, id);
      delivered := Some(req);
    }
  }

  method HandleDied(c: SubServerCollection, i: nat, ghost n: nat)
    requires c.Valid()
    modifies c
    ensures c.Valid() && EventStep(old(Snapshot(c)), Died(i), n, None, Snapshot(c))
  {
    if i < |c.ss| && c.ss[i].noq > 0 {
      c.PossiblyDead(i);
    }
  }

  method HandleTick(c: SubServerCollection, refusals: seq<bool>, retry: bool, ghost n: nat)
    requires c.Valid()
    modifies c
    ensures c.Valid() && EventStep(old(Snapshot(c)), Tick(refusals, retry), n, None, Snapshot(c))
  {
    c.DishOutWork(refusals, retry);
  }

  /** One event. */
  method Handle(c: SubServerCollection, e: Event, n: nat) returns (delivered: Option<Request>)
    requires c.Valid() && forall r | r in c.Open() :: r.id < n
    modifies c
    ensures c.Valid() && EventStep(old(Snapshot(c)), e, n, delivered, Snapshot(c))
  {
    delivered := None;
    match e
    case Start(key, srv, refusals, retry) => HandleStart(c, Request(n, key, srv), refusals, retry);
    case Forget(key) => HandleForget(c, key, n);
    case Sent(i) => HandleSent(c, i, n);
    case Result(i, id) => delivered := HandleResult(c, i, id, n);
    case Died(i) => HandleDied(c, i, n);
    case Tick(refusals, retry) => HandleTick(c, refusals, retry, n);
  }

  /** The next event of a run. */
  method Advance(c: SubServerCollection, events: seq<Event>, i: nat, n: nat, ghost states: seq<State>,
                 deliveries: seq<Option<Request>>) returns (delivered: Option<Request>, n': nat)
    requires c.Valid() && i < |events| && n == |Accepted(events[..i])|
    requires RunsThrough(events[..i], states, deliveries) && states[i] == Snapshot(c)
    modifies c
    ensures c.Valid() && n' == |Accepted(events[..i + 1])|
    ensures RunsThrough(events[..i + 1], states + [Snapshot(c)], deliveries + [delivered])
  {
    OpenIdsBelow(events[..i], states, deliveries);
    delivered := Handle(c, events[i], n);
    LoadValid(c.ss, c.chains, c.dead, c.sending, c.receiving);
    RunExtends(events, i, states, deliveries, delivered, Snapshot(c));
    assert events[..i + 1][..i] == events[..i];
    n' := if events[i].Start? then n + 1 else n;
  }

  /** In any run, in which servers answer only queries they were sent, every step is as specified: a request is
      accepted by its Start event, is in exactly one place while it is open, and stays open until the one result
      delivered for it, or until it is forgotten while queued. */
  method Run(moqs: seq<nat>, events: seq<Event>)
    returns (c: SubServerCollection, deliveries: seq<Option<Request>>, ghost states: seq<State>)
    requires forall i | 0 <= i < |moqs| :: moqs[i] > 0
    ensures c.Valid() && RunsThrough(events, states, deliveries) && Snapshot(c) == states[|events|]
    ensures forall r :: Accounted(events, states, deliveries, r)
    ensures forall i, j | 0 <= i < j < |deliveries| && deliveries[i].Some? :: deliveries[i] != deliveries[j]
  {
    c := new SubServerCollection(moqs);
    LoadValid(c.ss, c.chains, c.dead, c.sending, c.receiving);
    deliveries, states := [], [Snapshot(c)];
    var n := 0;
    for i := 0 to |events|
      invariant fresh(c) && c.Valid() && |states| == i + 1 && states[i] == Snapshot(c)
      invariant RunsThrough(events[..i], states, deliveries) && n == |Accepted(events[..i])|
    {
      var delivered;
      delivered, n := Advance(c, events, i, n, states, deliveries);
      deliveries, states := deliveries + [delivered], states + [Snapshot(c)];
    }
    assert events[..|events|] == events;
    Conservation(events, states, deliveries);
  }
}
