/** The caching server's tables of requests and servers, and what each step does to them. */
module ServerTables {
  import opened Collections
  import opened HandOut

  /** A request: the key of its cache entry and what is to be sent for it; `id` tells requests apart. */
  datatype Request = Request(id: nat, key: string, srv: string)

  /** Where a request is: in the queue, or in a place of a server's table. */
  datatype Place = Queued | At(server: nat, slot: nat)

  /** One place in a server's table of outstanding queries.  `next` is the next query to be sent, or -1. */
  datatype Slot = Empty | Query(req: Request, sent: bool, next: int)

  datatype Server = Server(moq: nat, noq: int, oq: seq<Slot>, head: int, tail: int, open: bool)

  // ----- counting -----

  function Active(oq: seq<Slot>): nat
  {
    if oq == [] then 0 else (if oq[0].Query? then 1 else 0) + Active(oq[1..])
  }

  lemma {:induction false} SlotChange(oq: seq<Slot>, q: nat, s: Slot)
    requires q < |oq|
    ensures Active(oq[q := s]) == Active(oq) + (if s.Query? then 1 else 0) - (if oq[q].Query? then 1 else 0)
    ensures oq[q].Query? ==> Active(oq) > 0
  {
    if q == 0 {
      assert oq[q := s][1..] == oq[1..];
    } else {
      SlotChange(oq[1..], q - 1, s);
      assert oq[q := s][1..] == oq[1..][q - 1 := s];
    }
  }

  /** Fewer queries than places: one is free. */
  lemma {:induction false} FreePlace(oq: seq<Slot>)
    ensures Active(oq) <= |oq|
    ensures Active(oq) < |oq| ==> exists q :: 0 <= q < |oq| && oq[q].Empty?
  {
    if oq != [] {
      FreePlace(oq[1..]);
      if Active(oq) < |oq| && oq[0].Query? {
        var q :| 0 <= q < |oq[1..]| && oq[1..][q].Empty?;
        assert oq[q + 1].Empty?;
      }
    }
  }

  lemma {:induction false} NothingHeld(oq: seq<Slot>)
    requires forall q | 0 <= q < |oq| :: oq[q].Empty?
    ensures Active(oq) == 0
  {
    if oq != [] { NothingHeld(oq[1..]); }
  }

  function TotalNoq(ss: seq<Server>): int
  {
    if ss == [] then 0 else ss[0].noq + TotalNoq(ss[1..])
  }

  /** Places of servers that are not given up. */
  ghost function TotalMoq(ss: seq<Server>, dead: set<nat>, from: nat): int
  {
    if ss == [] then 0 else (if from in dead then 0 else ss[0].moq) + TotalMoq(ss[1..], dead, from + 1)
  }

  lemma {:induction false} ServerChange(ss: seq<Server>, i: nat, s: Server)
    requires i < |ss|
    ensures TotalNoq(ss[i := s]) == TotalNoq(ss) + s.noq - ss[i].noq
  {
    if i == 0 {
      assert ss[i := s][1..] == ss[1..];
    } else {
      ServerChange(ss[1..], i - 1, s);
      assert ss[i := s][1..] == ss[1..][i - 1 := s];
    }
  }

  lemma {:induction false} MoqSame(ss: seq<Server>, ss': seq<Server>, dead: set<nat>, dead': set<nat>, from: nat)
    requires |ss| == |ss'| && forall j | 0 <= j < |ss| :: ss'[j].moq == ss[j].moq
    requires forall j | from <= j < from + |ss| :: j in dead <==> j in dead'
    ensures TotalMoq(ss', dead', from) == TotalMoq(ss, dead, from)
  {
    if ss != [] { MoqSame(ss[1..], ss'[1..], dead, dead', from + 1); }
  }

  lemma {:induction false} MoqDies(ss: seq<Server>, dead: set<nat>, from: nat, i: nat)
    requires from <= i < from + |ss| && i !in dead
    ensures TotalMoq(ss, dead + {i}, from) == TotalMoq(ss, dead, from) - ss[i - from].moq
  {
    if i == from {
      MoqSame(ss[1..], ss[1..], dead, dead + {i}, from + 1);
    } else {
      MoqDies(ss[1..], dead, from + 1, i);
    }
  }

  // ----- one server -----

  ghost predicate Linked(s: Server, chain: seq<nat>, k: nat)
    requires k < |chain|
  {
    && chain[k] < |s.oq| && s.oq[chain[k]].Query?
    && s.oq[chain[k]].next == if k + 1 < |chain| then chain[k + 1] else -1
  }

  /** `chain` lists the places whose queries are still to be sent, in the order of sending. */
  ghost predicate ChainOk(s: Server, chain: seq<nat>)
  {
    && (forall k | 0 <= k < |chain| :: chain[k] < |s.oq| && s.oq[chain[k]].Query? && !s.oq[chain[k]].sent)
    && (forall j, k | 0 <= j < k < |chain| :: chain[j] != chain[k])
    && (forall k {:trigger Linked(s, chain, k)} | 0 <= k < |chain| :: Linked(s, chain, k))
    && (forall q | 0 <= q < |s.oq| && s.oq[q].Query? && !s.oq[q].sent :: q in chain)
    && s.head == (if chain == [] then -1 else chain[0])
    && (chain != [] ==> s.tail == chain[|chain| - 1])
  }

  ghost predicate ServerOk(s: Server, chain: seq<nat>)
  {
    && s.moq > 0 && |s.oq| == s.moq && s.noq == Active(s.oq) && ChainOk(s, chain)
  }

  /** A server that has been given up holds nothing. */
  ghost predicate Idle(s: Server)
  {
    s.noq == 0 && !s.open && s.head == -1 && forall q | 0 <= q < |s.oq| :: s.oq[q].Empty?
  }

  function Assigned(s: Server, q: nat, req: Request): Server
    requires q < |s.oq| && (s.head >= 0 ==> 0 <= s.tail < |s.oq| && s.oq[s.tail].Query?)
  {
    var query := Query(req, false, -1);
    if s.head < 0 then s.(oq := s.oq[q := query], head := q, tail := q, noq := s.noq + 1)
    else s.(oq := s.oq[s.tail := s.oq[s.tail].(next := q)][q := query], tail := q, noq := s.noq + 1)
  }

  /** Put a query into a free place and at the end of what is to be sent. */
  lemma AssignKeeps(s: Server, chain: seq<nat>, q: nat, req: Request)
    requires ServerOk(s, chain) && q < |s.oq| && s.oq[q].Empty?
    ensures s.head >= 0 ==> 0 <= s.tail < |s.oq| && s.oq[s.tail].Query?
    ensures ServerOk(Assigned(s, q, req), chain + [q])
    ensures s.head >= 0 ==> s.noq > 0
  {
    var query := Query(req, false, -1);
    if s.head >= 0 {
      var last := s.oq[s.tail].(next := q);
      SlotChange(s.oq, s.tail, last);
      SlotChange(s.oq[s.tail := last], q, query);
    } else {
      SlotChange(s.oq, q, query);
    }
    var u, c := Assigned(s, q, req), chain + [q];
    forall k | 0 <= k < |c| ensures Linked(u, c, k) {
      if k < |chain| { assert Linked(s, chain, k); }
    }
    forall p | 0 <= p < |u.oq| && u.oq[p].Query? && !u.oq[p].sent ensures p in c {
      if p != q { assert p in chain; }
    }
  }

  function SentHead(s: Server): Server
    requires 0 <= s.head < |s.oq| && s.oq[s.head].Query?
  {
    var query := s.oq[s.head];
    s.(oq := s.oq[s.head := query.(sent := true)], head := if query.next < 0 then -1 else query.next,
       tail := if query.next < 0 then -1 else s.tail)
  }

  lemma SentChain(s: Server, chain: seq<nat>, c: seq<nat>)
    requires ChainOk(s, chain) && chain != [] && c == chain[1..] && 0 <= s.head < |s.oq| && s.oq[s.head].Query?
    ensures ChainOk(SentHead(s), c)
  {
    var u := SentHead(s);
    assert Linked(s, chain, 0) && s.head == chain[0];
    forall k | 0 <= k < |c| ensures c[k] != s.head && c[k] < |u.oq| && u.oq[c[k]] == s.oq[c[k]] && Linked(u, c, k) {
      assert c[k] == chain[k + 1];
      assert Linked(s, chain, k + 1);
      if k + 1 < |c| { assert c[k + 1] == chain[k + 2]; }
    }
    forall p | 0 <= p < |u.oq| && u.oq[p].Query? && !u.oq[p].sent ensures p in c {
      assert p != s.head && u.oq[p] == s.oq[p];
      var k :| 0 <= k < |chain| && chain[k] == p;
      assert c[k - 1] == p;
    }
    if c != [] { assert c[0] == chain[1] && c[|c| - 1] == chain[|chain| - 1]; }
  }

  /** The query at the head has been sent in full. */
  lemma SentKeeps(s: Server, chain: seq<nat>)
    requires ServerOk(s, chain) && s.head >= 0
    ensures chain != [] && 0 <= s.head < |s.oq| && s.oq[s.head].Query?
    ensures ServerOk(SentHead(s), chain[1..])
  {
    assert chain[0] == s.head;
    SentChain(s, chain, chain[1..]);
    SlotChange(s.oq, s.head, s.oq[s.head].(sent := true));
  }

  function Answered(s: Server, id: nat): Server
    requires id < |s.oq|
  {
    s.(oq := s.oq[id := Empty], noq := s.noq - 1)
  }

  /** A result has come for a query that was sent in full. */
  lemma AnswerKeeps(s: Server, chain: seq<nat>, id: nat)
    requires ServerOk(s, chain) && id < |s.oq| && s.oq[id].Query? && s.oq[id].sent
    ensures ServerOk(Answered(s, id), chain)
  {
    SlotChange(s.oq, id, Empty);
    var u := Answered(s, id);
    forall k | 0 <= k < |chain| ensures Linked(u, chain, k) { assert Linked(s, chain, k); }
  }

  // ----- where the requests are -----

  /** A queued request knows that it is queued, and is queued once. */
  ghost predicate QueueOk(reqs: seq<Request>, place: map<Request, Place>)
  {
    NoDup(reqs) && forall r | r in reqs :: r in place && place[r] == Queued
  }

  ghost predicate Found(ss: seq<Server>, reqs: seq<Request>, place: map<Request, Place>, r: Request)
  {
    r in place &&
    match place[r]
    case Queued => r in reqs
    case At(i, q) => i < |ss| && q < |ss[i].oq| && ss[i].oq[q].Query? && ss[i].oq[q].req == r
  }

  ghost predicate SlotPlaced(ss: seq<Server>, place: map<Request, Place>, i: nat, q: nat)
    requires i < |ss| && q < |ss[i].oq|
  {
    ss[i].oq[q].Query? ==> ss[i].oq[q].req in place && place[ss[i].oq[q].req] == At(i, q)
  }

  /** Every open request is in exactly one place, and nothing else is anywhere. */
  ghost predicate Placed(ss: seq<Server>, reqs: seq<Request>, place: map<Request, Place>)
  {
    && QueueOk(reqs, place)
    && (forall r {:trigger Found(ss, reqs, place, r)} | r in place :: Found(ss, reqs, place, r))
    && (forall i, q {:trigger SlotPlaced(ss, place, i, q)} | 0 <= i < |ss| && 0 <= q < |ss[i].oq| ::
          SlotPlaced(ss, place, i, q))
  }

  ghost predicate SameRequest(s: Slot, t: Slot)
  {
    (s.Query? <==> t.Query?) && (s.Query? ==> s.req == t.req)
  }

  /** The head of the queue goes into a free place. */
  lemma PlacedAssigned(ss: seq<Server>, ss': seq<Server>, reqs: seq<Request>, place: map<Request, Place>, i: nat, q: nat)
    requires Placed(ss, reqs, place) && reqs != [] && i < |ss| == |ss'| && q < |ss[i].oq| == |ss'[i].oq|
    requires ss[i].oq[q].Empty? && ss'[i].oq[q].Query? && ss'[i].oq[q].req == reqs[0]
    requires forall j | 0 <= j < |ss| && j != i :: ss'[j].oq == ss[j].oq
    requires forall p | 0 <= p < |ss[i].oq| && p != q :: SameRequest(ss'[i].oq[p], ss[i].oq[p])
    ensures Placed(ss', reqs[1..], place[reqs[0] := At(i, q)])
  {
    var r, rest, pl := reqs[0], reqs[1..], place[reqs[0] := At(i, q)];
    assert reqs == [r] + rest && r !in rest;
    forall x | x in pl ensures Found(ss', rest, pl, x) {
      if x != r { assert Found(ss, reqs, place, x); }
    }
    forall j, p | 0 <= j < |ss'| && 0 <= p < |ss'[j].oq| ensures SlotPlaced(ss', pl, j, p) {
      assert SlotPlaced(ss, place, j, p);
    }
  }

  /** A query goes back to the head of the queue. */
  lemma PlacedRequeued(ss: seq<Server>, reqs: seq<Request>, place: map<Request, Place>, i: nat, q: nat)
    requires Placed(ss, reqs, place) && i < |ss| && q < |ss[i].oq| && ss[i].oq[q].Query?
    ensures var r := ss[i].oq[q].req;
            Placed(ss[i := ss[i].(oq := ss[i].oq[q := Empty])], [r] + reqs, place[r := Queued])
  {
    var r := ss[i].oq[q].req;
    var ss', reqs', pl := ss[i := ss[i].(oq := ss[i].oq[q := Empty])], [r] + reqs, place[r := Queued];
    assert SlotPlaced(ss, place, i, q);
    assert r !in reqs;
    forall x | x in pl ensures Found(ss', reqs', pl, x) {
      if x != r { assert Found(ss, reqs, place, x); } else { assert reqs'[0] == r; }
    }
    forall j, p | 0 <= j < |ss'| && 0 <= p < |ss'[j].oq| ensures SlotPlaced(ss', pl, j, p) {
      assert SlotPlaced(ss, place, j, p);
    }
  }

  /** A query is answered. */
  lemma PlacedAnswered(ss: seq<Server>, reqs: seq<Request>, place: map<Request, Place>, i: nat, q: nat, s: Server)
    requires Placed(ss, reqs, place) && i < |ss| && q < |ss[i].oq| && ss[i].oq[q].Query?
    requires s.oq == ss[i].oq[q := Empty]
    ensures ss[i].oq[q].req in place && place[ss[i].oq[q].req] == At(i, q)
    ensures Placed(ss[i := s], reqs, place - {ss[i].oq[q].req})
  {
    var r := ss[i].oq[q].req;
    var ss', pl := ss[i := s], place - {r};
    assert SlotPlaced(ss, place, i, q);
    forall x | x in pl ensures Found(ss', reqs, pl, x) { assert Found(ss, reqs, place, x); }
    forall j, p | 0 <= j < |ss'| && 0 <= p < |ss'[j].oq| ensures SlotPlaced(ss', pl, j, p) {
      assert SlotPlaced(ss, place, j, p);
    }
  }

  /** Servers whose tables hold the same requests. */
  lemma PlacedSame(ss: seq<Server>, ss': seq<Server>, reqs: seq<Request>, place: map<Request, Place>)
    requires Placed(ss, reqs, place) && |ss| == |ss'| && forall j | 0 <= j < |ss| :: |ss'[j].oq| == |ss[j].oq|
    requires forall j, p | 0 <= j < |ss| && 0 <= p < |ss[j].oq| :: SameRequest(ss'[j].oq[p], ss[j].oq[p])
    ensures Placed(ss', reqs, place)
  {
    forall x | x in place ensures Found(ss', reqs, place, x) { assert Found(ss, reqs, place, x); }
    forall j, p | 0 <= j < |ss'| && 0 <= p < |ss'[j].oq| ensures SlotPlaced(ss', place, j, p) {
      assert SlotPlaced(ss, place, j, p);
    }
  }

  lemma QueuedListed(ss: seq<Server>, reqs: seq<Request>, place: map<Request, Place>)
    requires Placed(ss, reqs, place)
    ensures forall r | r in place && place[r] == Queued :: r in reqs
  {
    forall r | r in place && place[r] == Queued ensures r in reqs { assert Found(ss, reqs, place, r); }
  }

  lemma PlacedDeleted(ss: seq<Server>, reqs: seq<Request>, place: map<Request, Place>, k: nat)
    requires Placed(ss, reqs, place) && k < |reqs|
    ensures Placed(ss, RemoveAt(reqs, k), place - {reqs[k]})
    ensures reqs[k] in place && place[reqs[k]] == Queued
  {
    var r, rest, pl := reqs[k], RemoveAt(reqs, k), place - {reqs[k]};
    assert r in reqs;
    RemoveLeavesOthers(reqs, k);
    forall x | x in pl ensures Found(ss, rest, pl, x) {
      assert Found(ss, reqs, place, x);
    }
    forall j, p | 0 <= j < |ss| && 0 <= p < |ss[j].oq| ensures SlotPlaced(ss, pl, j, p) {
      assert SlotPlaced(ss, place, j, p);
    }
  }

  lemma PlacedQueued(ss: seq<Server>, reqs: seq<Request>, place: map<Request, Place>, r: Request)
    requires Placed(ss, reqs, place) && r !in place
    ensures Placed(ss, reqs + [r], place[r := Queued])
  {
    var reqs', pl := reqs + [r], place[r := Queued];
    forall x | x in pl ensures Found(ss, reqs', pl, x) {
      if x != r { assert Found(ss, reqs, place, x); } else { assert reqs'[|reqs|] == r; }
    }
    forall j, p | 0 <= j < |ss| && 0 <= p < |ss[j].oq| ensures SlotPlaced(ss, pl, j, p) {
      assert SlotPlaced(ss, place, j, p);
    }
  }

  // ----- the servers together -----

  /** A server is in order, and in the lists it belongs to. */
  ghost predicate ListedOk(ss: seq<Server>, chains: seq<seq<nat>>, sending: set<nat>, receiving: set<nat>, i: nat)
    requires i < |ss| == |chains|
  {
    && ServerOk(ss[i], chains[i])
    && (i in sending <==> ss[i].head >= 0)
    && (i in receiving <==> ss[i].noq > 0)
  }

  ghost predicate ServersOk(ss: seq<Server>, chains: seq<seq<nat>>, dead: seq<nat>,
                            sending: set<nat>, receiving: set<nat>)
  {
    && |chains| == |ss|
    && (forall i {:trigger ListedOk(ss, chains, sending, receiving, i)} | 0 <= i < |ss| ::
          ListedOk(ss, chains, sending, receiving, i))
    && (forall i | i in dead :: i < |ss| && Idle(ss[i]))
    && (forall j, k | 0 <= j < k < |dead| :: dead[j] != dead[k])
  }

  function Membership(servers: set<nat>, i: nat, member: bool): set<nat>
  {
    if member then servers + {i} else servers - {i}
  }

  ghost function SetOf(s: seq<nat>): set<nat>
  {
    set i | i in s
  }

  /** One live server changes. */
  lemma ServersUpdate(ss: seq<Server>, chains: seq<seq<nat>>, dead: seq<nat>, sending: set<nat>, receiving: set<nat>,
                      i: nat, s: Server, c: seq<nat>)
    requires ServersOk(ss, chains, dead, sending, receiving) && i < |ss| && i !in dead
    requires ServerOk(s, c) && s.moq == ss[i].moq
    ensures ServersOk(ss[i := s], chains[i := c], dead, Membership(sending, i, s.head >= 0),
                      Membership(receiving, i, s.noq > 0))
    ensures TotalNoq(ss[i := s]) == TotalNoq(ss) + s.noq - ss[i].noq
    ensures TotalMoq(ss[i := s], SetOf(dead), 0) == TotalMoq(ss, SetOf(dead), 0)
  {
    ServerChange(ss, i, s);
    MoqSame(ss, ss[i := s], SetOf(dead), SetOf(dead), 0);
    var ss', ch := ss[i := s], chains[i := c];
    var se, re := Membership(sending, i, s.head >= 0), Membership(receiving, i, s.noq > 0);
    forall j | 0 <= j < |ss'| ensures ListedOk(ss', ch, se, re, j) {
      assert ListedOk(ss, chains, sending, receiving, j);
    }
  }

  /** A server is given up. */
  lemma ServersLose(ss: seq<Server>, chains: seq<seq<nat>>, dead: seq<nat>, sending: set<nat>, receiving: set<nat>,
                    i: nat, s: Server)
    requires ServersOk(ss, chains, dead, sending, receiving) && i < |ss| && i !in dead
    requires Idle(s) && s.moq == ss[i].moq == |s.oq|
    ensures ServersOk(ss[i := s], chains[i := []], dead + [i], sending - {i}, receiving - {i})
    ensures TotalNoq(ss[i := s]) == TotalNoq(ss) - ss[i].noq
    ensures TotalMoq(ss[i := s], SetOf(dead + [i]), 0) == TotalMoq(ss, SetOf(dead), 0) - ss[i].moq
  {
    NothingHeld(s.oq);
    ServerChange(ss, i, s);
    MoqDies(ss, SetOf(dead), 0, i);
    assert SetOf(dead + [i]) == SetOf(dead) + {i};
    MoqSame(ss, ss[i := s], SetOf(dead + [i]), SetOf(dead + [i]), 0);
    var ss', ch, se, re := ss[i := s], chains[i := []], sending - {i}, receiving - {i};
    forall j | 0 <= j < |ss'| ensures ListedOk(ss', ch, se, re, j) {
      assert ListedOk(ss, chains, sending, receiving, j);
    }
  }

  lemma ConnectedKeeps(s: Server, chain: seq<nat>)
    requires ServerOk(s, chain)
    ensures ServerOk(s.(open := true), chain)
  {
    var u := s.(open := true);
    forall k | 0 <= k < |chain| ensures Linked(u, chain, k) { assert Linked(s, chain, k); }
  }

  /** The queries of server `i` are queued again; all other requests are where they were. */
  ghost predicate BackInQueue(place: map<Request, Place>, place': map<Request, Place>, i: nat)
  {
    && place'.Keys == place.Keys
    && forall r | r in place ::
         place'[r] == if place[r].At? && place[r].server == i then Queued else place[r]
  }

  /** So far this holds for places below `n`. */
  ghost predicate BackBelow(place: map<Request, Place>, place': map<Request, Place>, i: nat, n: nat)
  {
    && place'.Keys == place.Keys
    && forall r | r in place ::
         place'[r] == if place[r].At? && place[r].server == i && place[r].slot < n then Queued else place[r]
  }

  lemma BackStep(ss: seq<Server>, reqs: seq<Request>, was: map<Request, Place>, place: map<Request, Place>,
                 i: nat, q: nat)
    requires Placed(ss, reqs, place) && BackBelow(was, place, i, q) && i < |ss| && q < |ss[i].oq|
    ensures ss[i].oq[q].Empty? ==> BackBelow(was, place, i, q + 1)
    ensures ss[i].oq[q].Query? ==> BackBelow(was, place[ss[i].oq[q].req := Queued], i, q + 1)
  {
    assert SlotPlaced(ss, place, i, q);
    forall r | r in place && place[r] == At(i, q) ensures ss[i].oq[q].Query? && ss[i].oq[q].req == r {
      assert Found(ss, reqs, place, r);
    }
  }

  lemma AllBack(ss: seq<Server>, reqs: seq<Request>, was: map<Request, Place>, place: map<Request, Place>, i: nat)
    requires Placed(ss, reqs, was) && i < |ss| && BackBelow(was, place, i, |ss[i].oq|)
    ensures BackInQueue(was, place, i)
  {
    forall r | r in was && was[r].At? && was[r].server == i ensures was[r].slot < |ss[i].oq| {
      assert Found(ss, reqs, was, r);
    }
  }

  /** The head of the queue is now in a place of server `i`, and nothing else has moved. */
  ghost predicate SentTo(reqs: seq<Request>, reqs': seq<Request>, place: map<Request, Place>,
                         place': map<Request, Place>, i: nat)
  {
    && reqs != [] && reqs' == reqs[1..] && reqs[0] in place'
    && place'[reqs[0]].At? && place'[reqs[0]].server == i
    && place' == place[reqs[0] := place'[reqs[0]]]
  }

  /** The queue has lost requests at its head only, and no request is taken off a server. */
  ghost predicate HandedOut(reqs: seq<Request>, reqs': seq<Request>, place: map<Request, Place>,
                            place': map<Request, Place>)
  {
    && |reqs'| <= |reqs| && reqs' == reqs[|reqs| - |reqs'|..]
    && place'.Keys == place.Keys
    && forall r | r in place && place[r].At? :: place'[r] == place[r]
  }

  lemma HandedNone(reqs: seq<Request>, place: map<Request, Place>)
    ensures HandedOut(reqs, reqs, place, place)
  {
  }

  lemma HandedOn(ss: seq<Server>, reqs: seq<Request>, reqs1: seq<Request>, reqs2: seq<Request>,
                 place: map<Request, Place>, place1: map<Request, Place>, place2: map<Request, Place>, i: nat)
    requires HandedOut(reqs, reqs1, place, place1) && SentTo(reqs1, reqs2, place1, place2, i)
    requires Placed(ss, reqs1, place1)
    ensures HandedOut(reqs, reqs2, place, place2)
  {
    assert reqs1[0] in reqs1;
  }

  /** A queue without the requests for one cache entry, in the same order. */
  function Dropped(reqs: seq<Request>, key: string): seq<Request>
  {
    if reqs == [] then []
    else (if reqs[0].key == key then [] else [reqs[0]]) + Dropped(reqs[1..], key)
  }

  /** What has been gone through and what remains, filtered. */
  ghost function PartDropped(reqs: seq<Request>, k: nat, key: string): seq<Request>
    requires k <= |reqs|
  {
    reqs[..k] + Dropped(reqs[k..], key)
  }

  lemma DropStep(reqs: seq<Request>, k: nat, key: string)
    requires k < |reqs|
    ensures if reqs[k].key == key then PartDropped(RemoveAt(reqs, k), k, key) == PartDropped(reqs, k, key)
            else PartDropped(reqs, k + 1, key) == PartDropped(reqs, k, key)
  {
    var rest := Dropped(reqs[k + 1..], key);
    assert reqs[k..][1..] == reqs[k + 1..];
    if reqs[k].key == key {
      assert RemoveAt(reqs, k)[k..] == reqs[k + 1..] && RemoveAt(reqs, k)[..k] == reqs[..k];
    } else {
      assert reqs[..k] + ([reqs[k]] + rest) == reqs[..k + 1] + rest;
    }
  }

  ghost predicate AllGranted(refusals: seq<bool>)
  {
    forall k | 0 <= k < |refusals| :: !refusals[k]
  }

  lemma HeadCounts(s: Server, chain: seq<nat>)
    requires ServerOk(s, chain)
    ensures s.head >= 0 ==> s.noq > 0
    ensures s.noq >= 0
  {
    if s.head >= 0 {
      assert chain[0] == s.head;
      SlotChange(s.oq, s.head, s.oq[s.head]);
    }
  }

  lemma NoqPositive(ss: seq<Server>, chains: seq<seq<nat>>)
    requires |ss| == |chains| && forall i | 0 <= i < |ss| :: ServerOk(ss[i], chains[i])
    ensures TotalNoq(ss) >= 0
  {
    if ss != [] {
      HeadCounts(ss[0], chains[0]);
      NoqPositive(ss[1..], chains[1..]);
    }
  }

  lemma LoseState(ss: seq<Server>, was: seq<Server>, chains: seq<seq<nat>>, dead: seq<nat>, sending: set<nat>,
                  receiving: set<nat>, reqs: seq<Request>, place: map<Request, Place>, i: nat, s: Server)
    requires ServersOk(ss, chains, dead, sending, receiving) && Placed(was, reqs, place)
    requires i < |ss| == |was| && i !in dead && Idle(s) && s.moq == ss[i].moq == |s.oq| && s.oq == was[i].oq
    requires forall j | 0 <= j < |ss| && j != i :: was[j] == ss[j]
    ensures Placed(ss[i := s], reqs, place)
    ensures ServersOk(ss[i := s], chains[i := []], dead + [i], sending - {i}, receiving - {i})
    ensures TotalNoq(ss[i := s]) == TotalNoq(ss) - ss[i].noq
    ensures TotalMoq(ss[i := s], SetOf(dead + [i]), 0) == TotalMoq(ss, SetOf(dead), 0) - ss[i].moq
  {
    PlacedSame(was, ss[i := s], reqs, place);
    ServersLose(ss, chains, dead, sending, receiving, i, s);
  }

  lemma AssignState(ss: seq<Server>, chains: seq<seq<nat>>, dead: seq<nat>, sending: set<nat>, receiving: set<nat>,
                    reqs: seq<Request>, place: map<Request, Place>, i: nat, q: nat)
    requires ServersOk(ss, chains, dead, sending, receiving) && Placed(ss, reqs, place)
    requires i < |ss| && i !in dead && q < |ss[i].oq| && ss[i].oq[q].Empty? && reqs != []
    ensures ss[i].head >= 0 ==> ss[i].noq > 0 && 0 <= ss[i].tail < |ss[i].oq| && ss[i].oq[ss[i].tail].Query?
    ensures i in sending <==> ss[i].head >= 0
    ensures i in receiving <==> ss[i].noq > 0
    ensures reqs[0] in place
    ensures var s := Assigned(ss[i], q, reqs[0]);
            && ServersOk(ss[i := s], chains[i := chains[i] + [q]], dead, sending + {i}, receiving + {i})
            && Placed(ss[i := s], reqs[1..], place[reqs[0] := At(i, q)])
            && TotalNoq(ss[i := s]) == TotalNoq(ss) + 1
            && TotalMoq(ss[i := s], SetOf(dead), 0) == TotalMoq(ss, SetOf(dead), 0)
  {
    assert ListedOk(ss, chains, sending, receiving, i) && reqs[0] in reqs;
    hide Placed, ServersOk;
    AssignKeeps(ss[i], chains[i], q, reqs[0]);
    var s := Assigned(ss[i], q, reqs[0]);
    PlacedAssigned(ss, ss[i := s], reqs, place, i, q);
    ServersUpdate(ss, chains, dead, sending, receiving, i, s, chains[i] + [q]);
    assert s.noq > 0 && s.head >= 0;
  }

  lemma {:induction false} TotalsAppend(ss: seq<Server>, s: Server, dead: set<nat>, from: nat)
    requires dead == {}
    ensures TotalMoq(ss + [s], dead, from) == TotalMoq(ss, dead, from) + s.moq
    ensures TotalNoq(ss + [s]) == TotalNoq(ss) + s.noq
  {
    if ss != [] {
      TotalsAppend(ss[1..], s, dead, from + 1);
      assert (ss + [s])[1..] == ss[1..] + [s];
    } else {
      assert (ss + [s])[1..] == [];
    }
  }

  // ----- what handing out sees -----

  ghost function LoadOf(ss: seq<Server>, dead: seq<nat>): Load
  {
    Load(seq(|ss|, i requires 0 <= i < |ss| => ss[i].noq), seq(|ss|, i requires 0 <= i < |ss| => ss[i].moq),
         seq(|ss|, i requires 0 <= i < |ss| => ss[i].open), dead)
  }

  /** Places that live servers have left. */
  ghost function FreePlaces(ss: seq<Server>, dead: seq<nat>): int
  {
    TotalMoq(ss, SetOf(dead), 0) - TotalNoq(ss)
  }

  lemma LoadUpdate(ss: seq<Server>, i: nat, s: Server, dead: seq<nat>)
    requires i < |ss| && s.moq == ss[i].moq
    ensures var l := LoadOf(ss, dead);
            LoadOf(ss[i := s], dead) == l.(noq := l.noq[i := s.noq], open := l.open[i := s.open])
  {
    var l, m := LoadOf(ss, dead), LoadOf(ss[i := s], dead);
    assert m.noq == l.noq[i := s.noq] && m.moq == l.moq && m.open == l.open[i := s.open];
  }

  lemma {:induction false} LoadSum(ss: seq<Server>, dead: seq<nat>)
    ensures Sum(LoadOf(ss, dead).noq) == TotalNoq(ss)
  {
    if ss != [] {
      LoadSum(ss[1..], dead);
      assert LoadOf(ss[1..], dead).noq == LoadOf(ss, dead).noq[1..];
    }
  }

  lemma LoadValid(ss: seq<Server>, chains: seq<seq<nat>>, dead: seq<nat>, sending: set<nat>, receiving: set<nat>)
    requires ServersOk(ss, chains, dead, sending, receiving)
    ensures LoadOf(ss, dead).Valid()
  {
    forall k | 0 <= k < |ss| ensures 0 <= ss[k].noq <= ss[k].moq && ss[k].moq > 0 {
      assert ListedOk(ss, chains, sending, receiving, k);
      HeadCounts(ss[k], chains[k]);
      FreePlace(ss[k].oq);
    }
  }
}
