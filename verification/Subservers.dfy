/** The caching server's hand-out of requests to subservers. */
module Subservers {
  import opened Collections
  import opened HandOut
  import opened ServerTables

  class SubServerCollection {
    var ss: seq<Server>
    var totalMoq: int
    var totalNoq: int
    var dead: seq<nat>
    var sending: set<nat>
    var receiving: set<nat>
    var reqs: seq<Request>
    var nreqs: int
    ghost var chains: seq<seq<nat>>
    ghost var place: map<Request, Place>

    /** The counters say what they count, and the lists hold the servers they are for. */
    ghost predicate Counted()
      reads this
    {
      && ServersOk(ss, chains, dead, sending, receiving)
      && nreqs == |reqs| && totalNoq == TotalNoq(ss) && totalMoq == TotalMoq(ss, SetOf(dead), 0)
    }

    ghost predicate Valid()
      reads this
    {
      Counted() && Placed(ss, reqs, place)
    }

    /** The requests accepted and neither answered nor deleted yet. */
    ghost function Open(): set<Request>
      reads this
    {
      place.Keys
    }

    ghost function Now(): Load
      reads this
    {
      LoadOf(ss, dead)
    }

    /** `subserver_new` for each server, and `subserver_done`. */
    constructor (moqs: seq<nat>)
      requires forall i | 0 <= i < |moqs| :: moqs[i] > 0
      ensures Valid() && Open() == {} && |ss| == |moqs|
    {
      var servers: seq<Server>, total := [], 0;
      ghost var cs: seq<seq<nat>> := [];
      for i := 0 to |moqs|
        invariant |servers| == |cs| == i && total == TotalMoq(servers, {}, 0) && TotalNoq(servers) == 0
        invariant forall j | 0 <= j < i :: Idle(servers[j]) && cs[j] == [] && ServerOk(servers[j], [])
      {
        var s := Server(moqs[i], 0, seq(moqs[i], _ => Empty), -1, -1, false);
        NothingHeld(s.oq);
        TotalsAppend(servers, s, {}, 0);
        servers, cs, total := servers + [s], cs + [[]], total + moqs[i];
      }
      ss, chains, totalMoq, totalNoq := servers, cs, total, 0;
      dead, sending, receiving := [], {}, {};
      reqs, nreqs, place := [], 0, map[];
      new;
      assert SetOf(dead) == {};
      forall i | 0 <= i < |ss| ensures ListedOk(ss, chains, sending, receiving, i) {}
    }

    /** Strike a server that holds nothing any more off the totals and put it on the dead list. */
    method Retire(i: nat, ghost before: seq<Server>, ghost se: set<nat>, ghost re: set<nat>)
      requires ServersOk(before, chains, dead, se, re) && Placed(ss, reqs, place) && nreqs == |reqs|
      requires i < |ss| == |before| && i !in dead && sending == se - {i} && receiving == re - {i}
      requires forall j | 0 <= j < |ss| && j != i :: ss[j] == before[j]
      requires ss[i].moq == before[i].moq == |ss[i].oq| && ss[i].noq == before[i].noq
      requires forall q | 0 <= q < |ss[i].oq| :: ss[i].oq[q].Empty?
      requires totalNoq == TotalNoq(before) && totalMoq == TotalMoq(before, SetOf(dead), 0)
      modifies `ss, `totalMoq, `totalNoq, `chains, `dead
      ensures Valid() && |ss| == old(|ss|) && dead == old(dead) + [i] && ss[i].moq == old(ss[i].moq)
      ensures ss[i].noq == 0 && !ss[i].open && totalNoq == old(totalNoq) - old(ss[i]).noq
      ensures forall j | 0 <= j < |ss| && j != i :: ss[j] == old(ss[j])
    {
      ghost var was := ss;
      totalMoq := totalMoq - ss[i].moq;
      totalNoq := totalNoq - ss[i].noq;
      var s := ss[i].(head := -1, tail := -1, noq := 0, open := false);
      ss := ss[i := s];
      LoseState(before, was, chains, dead, se, re, reqs, place, i, s);
      assert ss == before[i := s];
      chains := chains[i := []];
      dead := dead + [i];
    }

    /** Put the query in one place of a server, if there is one, back at the head of the queue. */
    method RequeueSlot(i: nat, q: nat, ghost was: map<Request, Place>)
      requires Placed(ss, reqs, place) && i < |ss| && q < |ss[i].oq| && nreqs == |reqs| && BackBelow(was, place, i, q)
      modifies `ss, `reqs, `nreqs, `place
      ensures Placed(ss, reqs, place) && nreqs == |reqs| && BackBelow(was, place, i, q + 1)
      ensures ss == old(ss)[i := old(ss)[i].(oq := old(ss)[i].oq[q := Empty])]
      ensures if old(ss)[i].oq[q].Empty? then reqs == old(reqs) else reqs == [old(ss)[i].oq[q].req] + old(reqs)
      ensures TotalNoq(ss) == old(TotalNoq(ss)) && |reqs| + Active(ss[i].oq) == old(|reqs|) + Active(old(ss[i].oq))
    {
      BackStep(ss, reqs, was, place, i, q);
      if ss[i].oq[q].Query? {
        var r := ss[i].oq[q].req;
        PlacedRequeued(ss, reqs, place, i, q);
        var s := ss[i].(oq := ss[i].oq[q := Empty]);
        ServerChange(ss, i, s);
        SlotChange(ss[i].oq, q, Empty);
        reqs, nreqs, place := [r] + reqs, nreqs + 1, place[r := Queued];
        ss := ss[i := s];
      } else {
        assert ss[i].oq[q := Empty] == ss[i].oq;
        assert ss == ss[i := ss[i].(oq := ss[i].oq)];
      }
    }

    /** Put the queries of a server back on the queue. */
    method Requeue(i: nat)
      requires Placed(ss, reqs, place) && i < |ss| && nreqs == |reqs|
      modifies `ss, `reqs, `nreqs, `place
      ensures Placed(ss, reqs, place) && BackInQueue(old(place), place, i)
      ensures nreqs == |reqs| >= old(|reqs|) && reqs[|reqs| - old(|reqs|)..] == old(reqs)
      ensures |ss| == old(|ss|) && ss[i] == old(ss[i]).(oq := ss[i].oq) && |ss[i].oq| == old(|ss[i].oq|)
      ensures forall q | 0 <= q < |ss[i].oq| :: ss[i].oq[q].Empty?
      ensures forall j | 0 <= j < |ss| && j != i :: ss[j] == old(ss[j])
      ensures TotalNoq(ss) == old(TotalNoq(ss)) && |reqs| == old(|reqs|) + Active(old(ss[i].oq))
    {
      var q := 0;
      while q < |ss[i].oq|
        invariant |ss| == old(|ss|) && ss[i] == old(ss[i]).(oq := ss[i].oq) && |ss[i].oq| == old(|ss[i].oq|)
        invariant 0 <= q <= |ss[i].oq| && forall p | 0 <= p < q :: ss[i].oq[p].Empty?
        invariant forall j | 0 <= j < |ss| && j != i :: ss[j] == old(ss[j])
        invariant Placed(ss, reqs, place) && BackBelow(old(place), place, i, q)
        invariant nreqs == |reqs| >= old(|reqs|) && reqs[|reqs| - old(|reqs|)..] == old(reqs)
        invariant TotalNoq(ss) == old(TotalNoq(ss)) && |reqs| + Active(ss[i].oq) == old(|reqs|) + Active(old(ss[i].oq))
      {
        RequeueSlot(i, q, old(place));
        q := q + 1;
      }
      NothingHeld(ss[i].oq);
      AllBack(old(ss), old(reqs), old(place), place, i);
    }

    /** `subserver_possibly_dead`: all queries of the server go back to the head of the queue. */
    method PossiblyDead(i: nat)
      requires Valid() && i < |ss| && i !in dead
      modifies this
      ensures Valid() && Open() == old(Open()) && |ss| == old(|ss|) && dead == old(dead) + [i]
      ensures |reqs| >= old(|reqs|) && reqs[|reqs| - old(|reqs|)..] == old(reqs)
      ensures BackInQueue(old(place), place, i) && ss[i].moq == old(ss[i].moq)
      ensures forall j | 0 <= j < |ss| && j != i :: ss[j] == old(ss[j])
      ensures ss[i].noq == 0 && !ss[i].open && |reqs| + totalNoq == old(|reqs| + totalNoq)
    {
      assert ListedOk(ss, chains, sending, receiving, i);
      ghost var before, se, re := ss, sending, receiving;
      if ss[i].head >= 0 { sending := sending - {i}; }
      if ss[i].noq > 0 { receiving := receiving - {i}; }
      assert sending == se - {i} && receiving == re - {i};
      Requeue(i);
      Retire(i, before, se, re);
    }

    method Opened(i: nat)
      requires Valid() && i < |ss| && i !in dead
      modifies `ss
      ensures Valid() && ss == old(ss)[i := old(ss)[i].(open := true)]
    {
      ghost var was := ss;
      var s := ss[i].(open := true);
      assert ListedOk(ss, chains, sending, receiving, i);
      ConnectedKeeps(ss[i], chains[i]);
      ServersUpdate(ss, chains, dead, sending, receiving, i, s, chains[i]);
      assert chains[i := chains[i]] == chains;
      assert Membership(sending, i, s.head >= 0) == sending && Membership(receiving, i, s.noq > 0) == receiving;
      ss := ss[i := s];
      PlacedSame(was, ss, reqs, place);
    }

    /** A free place in the server's table. */
    method FreeSlot(i: nat) returns (qidx: nat)
      requires i < |ss| && |ss[i].oq| == ss[i].moq && Active(ss[i].oq) < ss[i].moq
      ensures qidx < |ss[i].oq| && ss[i].oq[qidx].Empty?
    {
      FreePlace(ss[i].oq);
      qidx := 0;
      while qidx < ss[i].moq && ss[i].oq[qidx].Query?
        invariant 0 <= qidx <= ss[i].moq && forall p | 0 <= p < qidx :: ss[i].oq[p].Query?
      {
        qidx := qidx + 1;
      }
    }

    /** A server that gets a query is on the lists of those sent to and received from. */
    method Enlist(i: nat)
      requires Valid() && i < |ss|
      modifies `sending, `receiving
      ensures sending == old(sending) + {i} && receiving == old(receiving) + {i}
    {
      assert ListedOk(ss, chains, sending, receiving, i);
      HeadCounts(ss[i], chains[i]);
      if ss[i].head < 0 {
        sending := sending + {i};
        if ss[i].noq == 0 { receiving := receiving + {i}; }
      }
      assert sending == old(sending) + {i} && receiving == old(receiving) + {i};
    }

    method Assign(i: nat)
      requires Valid() && i < |ss| && i !in dead && ss[i].noq < ss[i].moq && reqs != []
      modifies `ss, `reqs, `nreqs, `sending, `receiving, `chains, `place, `totalNoq
      ensures Valid() && Open() == old(Open()) && |ss| == old(|ss|) && SentTo(old(reqs), reqs, old(place), place, i)
      ensures ss == old(ss)[i := ss[i]] && ss[i].noq == old(ss[i].noq) + 1 && ss[i].moq == old(ss[i].moq)
      ensures ss[i].open == old(ss[i].open) && |chains| == |ss| && |reqs| + totalNoq == old(|reqs| + totalNoq)
      ensures chains[i] == old(chains)[i] + [place[old(reqs[0])].slot]
    {
      hide Placed;
      assert ListedOk(ss, chains, sending, receiving, i);
      var qidx := FreeSlot(i);
      AssignState(ss, chains, dead, sending, receiving, reqs, place, i, qidx);
      hide ServersOk;
      Enlist(i);
      var s := Assigned(ss[i], qidx, reqs[0]);
      ss := ss[i := s];
      chains := chains[i := chains[i] + [qidx]];
      place := place[reqs[0] := At(i, qidx)];
      reqs, nreqs, totalNoq := reqs[1..], nreqs - 1, totalNoq + 1;
    }

    /** `subserver_send_work_to_server`: the request at the head of the queue goes into a free place of the
        server; `refused` says whether a connection that is needed fails at once. */
    method SendWork(i: nat, refused: bool)
      requires Valid() && i < |ss| && i !in dead && ss[i].noq < ss[i].moq && reqs != []
      modifies this
      ensures Valid() && Open() == old(Open()) && |ss| == old(|ss|) && |reqs| >= old(|reqs|) - 1
      ensures if old(ss[i].open) || !refused then SentTo(old(reqs), reqs, old(place), place, i) && dead == old(dead)
              else forall r | r in Open() :: place[r] ==
                     if old(place)[r].At? && old(place)[r].server != i then old(place)[r] else Queued
      ensures Now() == Given(old(Now()), i, refused) && |reqs| + totalNoq == old(|reqs| + totalNoq)
    {
      assert reqs[0] in reqs && place[reqs[0]] == Queued;
      hide ServersOk, Placed;
      Assign(i);
      LoadUpdate(old(ss), i, ss[i], dead);
      if !ss[i].open {
        LoadUpdate(ss, i, ss[i].(noq := 0), dead + [i]);
        if refused {
          PossiblyDead(i);
        } else {
          Opened(i);
        }
      }
    }

    /** The server given up first is live again. */
    method Revive(d: nat)
      requires Valid() && dead != [] && d == dead[0]
      modifies `dead, `totalMoq
      ensures Valid() && dead == old(dead[1..]) && d < |ss| && d !in dead && ss[d].noq < ss[d].moq
    {
      ghost var was := SetOf(dead);
      assert dead[0] in dead;
      assert ListedOk(ss, chains, sending, receiving, d);
      forall x ensures x in dead <==> x in dead[1..] || x == d {
        assert dead == [dead[0]] + dead[1..];
      }
      dead := dead[1..];
      totalMoq := totalMoq + ss[d].moq;
      MoqDies(ss, SetOf(dead), 0, d);
      assert SetOf(dead) + {d} == was;
    }

    /** Try the server given up first again, with the request at the head of the queue. */
    method Retry(refused: bool, refusals: seq<bool>, ghost rs: seq<Request>, ghost pl: map<Request, Place>)
      requires Valid() && reqs != [] && dead != []
      requires AllGranted(refusals) ==> !refused && HandedOut(rs, reqs, pl, place)
      modifies this
      ensures Valid() && Open() == old(Open()) && |ss| == old(|ss|) && old(dead[0]) < |ss|
      ensures Now() == Given(old(Now()).(dead := old(dead)[1..]), old(dead[0]), refused)
      ensures AllGranted(refusals) ==> HandedOut(rs, reqs, pl, place)
    {
      hide Placed, HandedOut;
      var d := dead[0];
      Revive(d);
      ghost var servers, was, places := ss, reqs, place;
      SendWork(d, refused);
      if AllGranted(refusals) {
        HandedOn(servers, rs, was, reqs, pl, places, place, d);
      }
    }

    /** Send a request to a server, as one of several. */
    method GiveWork(i: nat, refused: bool, refusals: seq<bool>, ghost rs: seq<Request>, ghost pl: map<Request, Place>)
      requires Valid() && i < |ss| && i !in dead && ss[i].noq != ss[i].moq && reqs != []
      requires AllGranted(refusals) ==> !refused && HandedOut(rs, reqs, pl, place)
      modifies this
      ensures Valid() && Open() == old(Open()) && |ss| == old(|ss|) && |reqs| >= old(|reqs|) - 1
      ensures Now() == Given(old(Now()), i, refused) && |reqs| + totalNoq == old(|reqs| + totalNoq) && Now().Valid()
      ensures AllGranted(refusals) ==> HandedOut(rs, reqs, pl, place)
    {
      hide Placed, HandedOut;
      assert ListedOk(ss, chains, sending, receiving, i);
      FreePlace(ss[i].oq);
      SendWork(i, refused);
      LoadValid(ss, chains, dead, sending, receiving);
      if AllGranted(refusals) {
        HandedOn(old(ss), rs, old(reqs), reqs, pl, old(place), place, i);
      }
    }

    /** One step of the round.  The test for servers that are too loaded never holds. */
    method TakeTurn(pss: nat, i: nat, toDistribute: int, newTotal: int, refusals: seq<bool>,
                    ghost rs: seq<Request>, ghost pl: map<Request, Place>) returns (next: nat, left: int)
      requires Valid() && Now().Valid() && pss <= i < |ss| && 0 < toDistribute <= |reqs| && newTotal > 0
      requires AllGranted(refusals) ==> HandedOut(rs, reqs, pl, place)
      modifies this
      ensures Valid() && Open() == old(Open()) && |ss| == old(|ss|) && |reqs| + totalNoq == old(|reqs| + totalNoq)
      ensures next <= i + 1 && left <= toDistribute && left <= |reqs| && Now().Valid()
      ensures Round(Now(), refusals, next, i + 1, left) == Round(old(Now()), refusals, pss, i, toDistribute)
      ensures AllGranted(refusals) ==> HandedOut(rs, reqs, pl, place)
    {
      next, left := pss, toDistribute;
      assert Now().noq[pss] == ss[pss].noq && Now().moq[pss] == ss[pss].moq;
      if ss[pss].noq == ss[pss].moq {
        next := pss + 1;
      } else if pss in dead {
      } else {
        NeverTooLoaded(ss[pss].noq, ss[pss].moq, newTotal);
        if (ss[pss].noq + 1) / newTotal > ss[pss].moq / newTotal {
          assert false;
        } else {
          GiveWork(pss, i < |refusals| && refusals[i], refusals, rs, pl);
          left := toDistribute - 1;
        }
      }
    }

    /** The round itself. */
    method TakeTurns(work: int, newTotal: int, refusals: seq<bool>)
      requires Valid() && Now().Valid() && work <= |reqs| && (work > 0 ==> newTotal > 0)
      modifies this
      ensures Valid() && Open() == old(Open()) && |ss| == old(|ss|) && |reqs| + totalNoq == old(|reqs| + totalNoq)
      ensures Now() == Round(old(Now()), refusals, 0, 0, work)
      ensures AllGranted(refusals) ==> HandedOut(old(reqs), reqs, old(place), place)
    {
      hide ServersOk, Placed, HandedOut, Load.Valid;
      HandedNone(reqs, place);
      ghost var after := Round(Now(), refusals, 0, 0, work);
      var pss, i, toDistribute := 0, 0, work;
      while i < |ss| && toDistribute > 0
        invariant Valid() && Open() == old(Open()) && |ss| == old(|ss|) && 0 <= pss <= i <= |ss|
        invariant |reqs| + totalNoq == old(|reqs| + totalNoq)
        invariant toDistribute <= work && toDistribute <= |reqs|
        invariant Now().Valid() && Round(Now(), refusals, pss, i, toDistribute) == after
        invariant AllGranted(refusals) ==> HandedOut(old(reqs), reqs, old(place), place)
      {
        pss, toDistribute := TakeTurn(pss, i, toDistribute, newTotal, refusals, old(reqs), old(place));
        i := i + 1;
      }
      assert Round(Now(), refusals, pss, i, toDistribute) == Now();
    }

    /** Go once through the servers, giving work to those that are not saturated. */
    method Distribute(refusals: seq<bool>)
      requires Valid() && reqs != []
      modifies this
      ensures Valid() && Open() == old(Open()) && |ss| == old(|ss|) && |reqs| + totalNoq == old(|reqs| + totalNoq)
      ensures old(Now()).Valid()
      ensures var free, waiting := old(totalMoq - totalNoq), old(|reqs|);
              Now() == Round(old(Now()), refusals, 0, 0, if free > waiting then waiting else free)
      ensures AllGranted(refusals) ==> HandedOut(old(reqs), reqs, old(place), place)
    {
      hide Placed, HandedOut, Round;
      LoadValid(ss, chains, dead, sending, receiving);
      var toDistribute := totalMoq - totalNoq;
      if toDistribute > nreqs {
        toDistribute := nreqs;
      }
      var newTotal := totalNoq + toDistribute;
      forall j | 0 <= j < |ss| ensures ServerOk(ss[j], chains[j]) { assert ListedOk(ss, chains, sending, receiving, j); }
      NoqPositive(ss, chains);
      TakeTurns(toDistribute, newTotal, refusals);
    }

    /** `subserver_dishoutwork`.  `refusals` says which of the connections it opens fail at once, and `retry`
        whether a server that was given up may be tried again by now.  The servers get the requests that the
        specification of a call gives them.  Unless a connection fails, it only takes requests off the head
        of the queue. */
    method DishOutWork(refusals: seq<bool>, retry: bool)
      requires Valid()
      modifies this
      ensures Valid() && Open() == old(Open()) && |ss| == old(|ss|)
      ensures old(Now()).Valid()
      ensures Now() == AfterCall(old(Now()), old(totalMoq - totalNoq), old(|reqs|), refusals, retry)
      ensures AllGranted(refusals) ==> HandedOut(old(reqs), reqs, old(place), place)
    {
      hide Placed, HandedOut;
      HandedNone(reqs, place);
      LoadValid(ss, chains, dead, sending, receiving);
      LoadSum(ss, dead);
      if reqs == [] {
        return;
      }
      Distribute(refusals);
      LoadSum(ss, dead);
      if reqs == [] || dead == [] || !retry {
        return;
      }
      Retry(|ss| < |refusals| && refusals[|ss|], refusals, old(reqs), old(place));
    }

    /** `subserver_queue_req` at the tail. */
    method Enqueue(req: Request)
      requires Valid() && req !in Open()
      modifies `reqs, `nreqs, `place
      ensures Valid() && reqs == old(reqs) + [req] && place == old(place)[req := Queued]
    {
      PlacedQueued(ss, reqs, place, req);
      reqs, nreqs, place := reqs + [req], nreqs + 1, place[req := Queued];
    }

    /** `subserver_startreq`: accept a request. */
    method StartReq(req: Request, refusals: seq<bool>, retry: bool)
      requires Valid() && req !in Open()
      modifies this
      ensures Valid() && Open() == old(Open()) + {req} && |ss| == old(|ss|)
      ensures old(reqs) != [] ==>
                reqs == old(reqs) + [req] && place == old(place)[req := Queued] && ss == old(ss) && dead == old(dead)
      ensures old(reqs) == [] ==>
                && old(Now()).Valid()
                && Now() == AfterCall(old(Now()), old(totalMoq - totalNoq), 1, refusals, retry)
                && (AllGranted(refusals) ==> HandedOut([req], reqs, old(place)[req := Queued], place))
    {
      hide ServersOk, Placed, HandedOut, AfterCall, Load.Valid;
      var wasempty := reqs == [];
      Enqueue(req);
      if wasempty {
        assert reqs == [req];
        DishOutWork(refusals, retry);
      }
    }

    method DropAt(k: nat)
      requires Valid() && k < |reqs|
      modifies `reqs, `nreqs, `place
      ensures Valid() && reqs == RemoveAt(old(reqs), k) && place == old(place) - {old(reqs)[k]}
      ensures old(reqs)[k] in old(place) && old(place)[old(reqs)[k]] == Queued
    {
      PlacedDeleted(ss, reqs, place, k);
      hide ServersOk, Placed;
      place := place - {reqs[k]};
      reqs, nreqs := RemoveAt(reqs, k), nreqs - 1;
    }

    /** `subserver_deletereq`: queued requests with the key go; those being served stay. */
    method DeleteReq(key: string)
      requires Valid()
      modifies `reqs, `nreqs, `place
      ensures Valid() && reqs == Dropped(old(reqs), key)
      ensures forall r :: r in Open() <==> r in old(Open()) && !(old(place)[r] == Queued && r.key == key)
      ensures forall r | r in Open() :: place[r] == old(place)[r]
    {
      hide ServersOk, Placed;
      var k := 0;
      assert PartDropped(reqs, 0, key) == Dropped(reqs, key) by { assert reqs[0..] == reqs; }
      while k < |reqs|
        invariant 0 <= k <= |reqs| && Valid() && forall j | 0 <= j < k :: reqs[j].key != key
        invariant PartDropped(reqs, k, key) == Dropped(old(reqs), key)
        invariant forall r | r in Open() :: r in old(Open()) && place[r] == old(place)[r]
        invariant forall r | r in old(Open()) && r !in Open() :: old(place)[r] == Queued && r.key == key
        decreases |reqs| - k
      {
        DropStep(reqs, k, key);
        if reqs[k].key == key {
          DropAt(k);
        } else {
          k := k + 1;
        }
      }
      assert PartDropped(reqs, k, key) == reqs;
      QueuedListed(ss, reqs, place);
    }

    /** The query at the head of what is to be sent to a server has been sent in full. */
    method QuerySent(i: nat)
      requires Valid() && i < |ss| && i in sending
      modifies `ss, `chains, `sending
      ensures Valid() && |ss| == old(|ss|) == |chains| == |old(chains)|
      ensures 0 <= old(ss)[i].head < |old(ss)[i].oq| && old(ss)[i].oq[old(ss)[i].head].Query?
      ensures ss == old(ss)[i := SentHead(old(ss)[i])]
      ensures old(chains)[i] != [] && chains[i] == old(chains)[i][1..] && old(chains)[i][0] < |ss[i].oq|
      ensures ss[i].oq[old(chains)[i][0]].Query? && ss[i].oq[old(chains)[i][0]].sent
    {
      hide Placed;
      assert ListedOk(ss, chains, sending, receiving, i);
      SentKeeps(ss[i], chains[i]);
      HeadCounts(ss[i], chains[i]);
      var s := SentHead(ss[i]);
      assert i !in dead;
      ServersUpdate(ss, chains, dead, sending, receiving, i, s, chains[i][1..]);
      hide ServersOk;
      ghost var was, re := ss, receiving;
      if ss[i].oq[ss[i].head].next < 0 {
        sending := sending - {i};
      }
      ss := ss[i := s];
      chains := chains[i := chains[i][1..]];
      assert receiving == Membership(re, i, s.noq > 0) && sending == Membership(old(sending), i, s.head >= 0);
      PlacedSame(was, ss, reqs, place);
    }

    /** `subserver_extract_results`: a result for the query in place `id` goes to the cache entry of its
        request, which leaves the books.  False where the code gives up. */
    method ExtractResult(i: nat, id: nat) returns (ok: bool, req: Request)
      requires Valid() && i < |ss| && i in receiving
      requires id < |ss[i].oq| && ss[i].oq[id].Query? ==> ss[i].oq[id].sent
      modifies `ss, `totalNoq, `receiving, `place
      ensures Valid() && |ss| == old(|ss|)
      ensures ok <==> id < |old(ss[i]).oq| && old(ss[i]).oq[id].Query?
      ensures !ok ==> Open() == old(Open())
      ensures !ok ==> ss == old(ss) && place == old(place)
      ensures ok ==> req == old(ss[i]).oq[id].req && req in old(Open()) && Open() == old(Open()) - {req}
      ensures ok ==> old(place)[req] == At(i, id) && place == old(place) - {req}
      ensures ok ==> ss == old(ss)[i := Answered(old(ss)[i], id)]
    {
      assert ListedOk(ss, chains, sending, receiving, i);
      if id >= ss[i].moq || ss[i].oq[id].Empty? {
        return false, Request(0, "", "");
      }
      ok, req := true, ss[i].oq[id].req;
      assert ListedOk(ss, chains, sending, receiving, i);
      AnswerKeeps(ss[i], chains[i], id);
      var s := Answered(ss[i], id);
      ServersUpdate(ss, chains, dead, sending, receiving, i, s, chains[i]);
      PlacedAnswered(ss, reqs, place, i, id, s);
      totalNoq := totalNoq - 1;
      if s.noq == 0 {
        receiving := receiving - {i};
      }
      assert chains[i := chains[i]] == chains && sending == Membership(sending, i, s.head >= 0);
      assert receiving == Membership(old(receiving), i, s.noq > 0);
      ss := ss[i := s];
      place := place - {req};
    }
  }
}
